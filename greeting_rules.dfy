/**
 * The decision rules of the automatic greeting plugin, as values: nick
 * normalisation, cleaning of the known-nicks file, the per-nick status table,
 * the cool-down rule that picks nothing, "welcome back" or a full greeting,
 * mention tracking, and the tests that gate the join and nick-change hooks.
 * Time is whole seconds, passed in by the caller.
 */
module GreetingRules {
  import opened Wrappers
  import opened RubyText

  // ---------------------------------------------------------------------------
  // normalize_nick
  // ---------------------------------------------------------------------------

  /** `nick.gsub(/\|.*$/, '').gsub(/\_.*$/, '').downcase`. */
  function NormalizeNick(nick: string): (r: string)
    ensures '|' !in r && '_' !in r
    ensures forall i :: 0 <= i < |r| ==> !IsUpper(r[i])
  {
    var cut := CutAtEachLine(CutAtEachLine(nick, '|'), '_');
    var r := Downcase(cut);
    assert forall i :: 0 <= i < |r| ==> r[i] != '|' && r[i] != '_' by {
      forall i | 0 <= i < |r| ensures r[i] != '|' && r[i] != '_' {
        assert cut[i] in cut;
      }
    }
    r
  }

  /**
   * On a one-line nick, the result is the lower-cased part before the first
   * `|` or `_`: a prefix of `nick.downcase`, followed in `nick` by `|`, `_`
   * or nothing.
   */
  lemma NormalizeNickPrefix(nick: string)
    requires '\n' !in nick
    ensures var r := NormalizeNick(nick);
      && r <= Downcase(nick)
      && (|r| == |nick| || nick[|r|] == '|' || nick[|r|] == '_')
  {
    var p1 := CutAtEachLine(nick, '|');
    CutSingleLine(nick, '|');
    assert '\n' !in p1;
    var p2 := CutAtEachLine(p1, '_');
    CutSingleLine(p1, '_');
    DowncasePrefix(p2, nick);
  }

  /** Normalising twice is normalising once. */
  lemma NormalizeNickIdempotent(nick: string)
    ensures NormalizeNick(NormalizeNick(nick)) == NormalizeNick(nick)
  {
    var r := NormalizeNick(nick);
    CutAbsent(r, '|');
    CutAbsent(r, '_');
    DowncaseIdempotent(CutAtEachLine(CutAtEachLine(nick, '|'), '_'));
  }

  // ---------------------------------------------------------------------------
  // Known nicks: File.read(...).split("\n").sort.uniq, then the comment and
  // white space of each line removed, then empty lines deleted
  // ---------------------------------------------------------------------------

  /**
   * `r` is `line[i..j]`, the comment starts at the first `#` (position `h`,
   * or the end of the line), only white space precedes `i`, and only white
   * space or NUL lies between `j` and `h`.
   */
  predicate KeptSlice(line: string, r: string, h: int, i: int, j: int) {
    && 0 <= i <= j <= h <= |line|
    && '#' !in line[..h] && (h == |line| || line[h] == '#')
    && r == line[i..j]
    && (forall k :: 0 <= k < i ==> IsSpace(line[k]))
    && (forall k :: j <= k < h ==> IsSpace(line[k]) || line[k] == '\0')
  }

  /**
   * `x.gsub(/#.*$/, '').strip` on one line of the file. On a line without a
   * line feed the comment starts at the first `#` (position `h`), and what is
   * kept is the slice `line[i..j]` before it, with only white space in front
   * and only white space or NUL between it and the comment.
   */
  function CleanEntry(line: string): (r: string)
    ensures '#' !in r
    ensures r == [] || (!IsSpace(r[0]) && !(IsSpace(r[|r| - 1]) || r[|r| - 1] == '\0'))
    ensures forall x :: x in r ==> x in line
    ensures '\n' !in line ==> exists h, i, j :: KeptSlice(line, r, h, i, j)
  {
    var cut := CutAtEachLine(line, '#');
    if '\n' in line then Strip(cut)
    else
      CleanSingleLine(line);
      Strip(cut)
  }

  /** `CleanEntry`'s slice contract, for a line without a line feed. */
  lemma CleanSingleLine(line: string)
    requires '\n' !in line
    ensures exists h, i, j :: KeptSlice(line, Strip(CutAtEachLine(line, '#')), h, i, j)
  {
    var cut := CutAtEachLine(line, '#');
    var r := Strip(cut);
    CutSingleLine(line, '#');
    var i, j := StripBounds(cut);
    StrippedPrefix(line, cut, r, i, j);
    assert KeptSlice(line, r, |cut|, i, j);
  }

  /** A stripped slice of the part before the first `#` is a kept slice of the line. */
  lemma StrippedPrefix(line: string, cut: string, r: string, i: int, j: int)
    requires cut <= line && '#' !in cut && (|cut| == |line| || line[|cut|] == '#')
    requires 0 <= i <= j <= |cut| && r == cut[i..j]
    requires forall k :: 0 <= k < i ==> IsSpace(cut[k])
    requires forall k :: j <= k < |cut| ==> IsSpace(cut[k]) || cut[k] == '\0'
    ensures KeptSlice(line, r, |cut|, i, j)
  {
    var h := |cut|;
    assert cut == line[..h];
    assert forall k :: 0 <= k < h ==> line[k] == cut[k];
  }

  /** `delete_if { |x| x =~ /^$/ }` on lines without line feeds: drop the empty ones. */
  function DeleteEmpty(lines: seq<string>): (r: seq<string>)
    ensures forall i :: 0 <= i < |r| ==> r[i] != ""
    ensures forall x :: x in r <==> x in lines && x != ""
  {
    if lines == [] then []
    else
      assert forall x :: x in lines <==> x == lines[0] || x in lines[1..];
      (if lines[0] == "" then [] else [lines[0]]) + DeleteEmpty(lines[1..])
  }

  /** The raw lines after `sort.uniq`. */
  function DistinctLines(text: string): (u: seq<string>)
    ensures forall x :: x in u <==> x in SplitLines(text)
  {
    var lines := SplitLines(text);
    var sorted := SortStrings(lines);
    assert forall x :: x in sorted <==> x in lines by {
      forall x ensures x in sorted <==> x in lines {
        assert x in sorted <==> x in multiset(sorted);
        assert x in lines <==> x in multiset(lines);
      }
    }
    Uniq(sorted)
  }

  /** `map { |x| x.gsub(/#.*$/, '').strip }`. */
  function CleanAll(lines: seq<string>): (r: seq<string>)
    ensures |r| == |lines|
    ensures forall i :: 0 <= i < |r| ==> r[i] == CleanEntry(lines[i])
  {
    seq(|lines|, i requires 0 <= i < |lines| => CleanEntry(lines[i]))
  }

  /** `@known_nicks` as `initialize` computes it from the file's text. */
  function KnownNicks(text: string): (r: seq<string>)
    ensures forall i :: 0 <= i < |r| ==> r[i] != ""
  {
    DeleteEmpty(CleanAll(DistinctLines(text)))
  }

  /**
   * The raw lines are sorted and made unique before cleaning: the list that
   * is cleaned is strictly ascending and holds exactly the file's lines.
   */
  lemma DistinctLinesSortedUnique(text: string)
    ensures Sorted(DistinctLines(text)) && NoDuplicates(DistinctLines(text))
  {
    UniqOfSorted(SortStrings(SplitLines(text)));
  }

  /** Every known nick is non-empty, has no `#`, no line feed and no white space at either end. */
  lemma KnownNicksClean(text: string, k: string)
    requires k in KnownNicks(text)
    ensures k != "" && '#' !in k && '\n' !in k
    ensures !IsSpace(k[0]) && !IsSpace(k[|k| - 1])
  {
    KnownNickHasLine(text, k);
    var lines := SplitLines(text);
    var j :| 0 <= j < |lines| && CleanEntry(lines[j]) == k;
    assert '\n' !in lines[j];
  }

  /** Every known nick is the cleaned form of some line of the file. */
  lemma KnownNickHasLine(text: string, k: string)
    requires k in KnownNicks(text)
    ensures exists j :: 0 <= j < |SplitLines(text)| && CleanEntry(SplitLines(text)[j]) == k
  {
    var lines := SplitLines(text);
    var u := DistinctLines(text);
    var cleaned := CleanAll(u);
    assert KnownNicks(text) == DeleteEmpty(cleaned);
    assert k in cleaned;
    var i :| 0 <= i < |cleaned| && cleaned[i] == k;
    assert u[i] in u;
    assert u[i] in lines;
    var j :| 0 <= j < |lines| && lines[j] == u[i];
    assert CleanEntry(lines[j]) == k;
  }

  /** Every line of the file whose cleaned form is not empty yields a known nick: no line is lost. */
  lemma LineGivesKnownNick(text: string, j: int)
    requires 0 <= j < |SplitLines(text)| && CleanEntry(SplitLines(text)[j]) != ""
    ensures CleanEntry(SplitLines(text)[j]) in KnownNicks(text)
  {
    var u := DistinctLines(text);
    var cleaned := CleanAll(u);
    var line := SplitLines(text)[j];
    assert line in SplitLines(text);
    var i :| 0 <= i < |u| && u[i] == line;
    assert cleaned[i] == CleanEntry(line);
    assert CleanEntry(line) in cleaned;
  }

  // ---------------------------------------------------------------------------
  // The per-nick status table
  // ---------------------------------------------------------------------------

  /** One entry of `@status`; Ruby's `nil` is `None`. */
  datatype NickStatus = NickStatus(
    lastMentionTime: Option<int>,
    lastMentionWord: Option<string>,
    joinedTime: Option<int>,
    leftTime: Option<int>,
    lastGreet: Option<int>)

  /** The entry `init_status` gives every known nick: all five fields nil. */
  const Unseen := NickStatus(None, None, None, None, None)

  type StatusTable = map<string, NickStatus>

  // ---------------------------------------------------------------------------
  // say_greetings_or_wb
  // ---------------------------------------------------------------------------

  datatype Greeting = Silent | WelcomeBack | FullGreeting

  /** Seconds since the last greeting; `cooling_off_period + 1` when never greeted. */
  function Elapsed(lastGreet: Option<int>, now: int, coolingOffPeriod: int): (e: int)
    ensures lastGreet.None? ==> e > coolingOffPeriod
  {
    if lastGreet.None? then coolingOffPeriod + 1 else now - lastGreet.value
  }

  /** What `say_greetings_or_wb(who)` says at time `now`. */
  function Decide(status: StatusTable, who: string, now: int, wbPeriod: int, coolingOffPeriod: int): (g: Greeting)
    ensures g != Silent ==> who in status
    ensures g == WelcomeBack ==> wbPeriod < coolingOffPeriod
  {
    if who !in status then Silent
    else
      var period := Elapsed(status[who].lastGreet, now, coolingOffPeriod);
      if period < wbPeriod then Silent
      else if period < coolingOffPeriod then WelcomeBack
      else FullGreeting
  }

  /** The table afterwards: `who`'s `last_greet` stamped with `now` when something was said. */
  function Greeted(status: StatusTable, who: string, now: int, g: Greeting): (t: StatusTable)
    requires g != Silent ==> who in status
    ensures t.Keys == status.Keys
  {
    if g == Silent then status else status[who := status[who].(lastGreet := Some(now))]
  }

  /** The line handed to `timed_print`: `"#{@greet_word} #{who}"` or `"#{@wb_word} #{who}"`. */
  function Utterance(g: Greeting, who: string, greetWord: string, wbWord: string): (r: Option<string>)
    ensures r.Some? <==> g != Silent
    ensures r.Some? ==> |r.value| > |who| && r.value[|r.value| - |who| - 1..] == " " + who
    ensures r.Some? ==> r.value[..|r.value| - |who| - 1] == (if g == WelcomeBack then wbWord else greetWord)
  {
    match g
    case Silent => None
    case WelcomeBack => Some(wbWord + " " + who)
    case FullGreeting => Some(greetWord + " " + who)
  }

  /** A nick without a status entry is never greeted. */
  lemma UnknownNickSilent(status: StatusTable, who: string, now: int, wbPeriod: int, coolingOffPeriod: int)
    requires who !in status
    ensures Decide(status, who, now, wbPeriod, coolingOffPeriod) == Silent
  {
  }

  /**
   * Never greeted: the elapsed time counts as `cooling_off_period + 1`, so a
   * full greeting, unless the configured welcome-back period is longer still.
   */
  lemma FirstMeeting(status: StatusTable, who: string, now: int, wbPeriod: int, coolingOffPeriod: int)
    requires who in status && status[who].lastGreet.None?
    ensures Decide(status, who, now, wbPeriod, coolingOffPeriod)
         == if wbPeriod <= coolingOffPeriod + 1 then FullGreeting else Silent
  {
  }

  /** The three-way rule on the time since the last greeting. */
  lemma DecideByElapsed(status: StatusTable, who: string, now: int, wbPeriod: int, coolingOffPeriod: int)
    requires who in status && status[who].lastGreet.Some?
    ensures var e := now - status[who].lastGreet.value;
      var g := Decide(status, who, now, wbPeriod, coolingOffPeriod);
      && (g == Silent <==> e < wbPeriod)
      && (g == WelcomeBack <==> wbPeriod <= e < coolingOffPeriod)
      && (g == FullGreeting <==> wbPeriod <= e && coolingOffPeriod <= e)
  {
  }

  function Rank(g: Greeting): nat {
    match g
    case Silent => 0
    case WelcomeBack => 1
    case FullGreeting => 2
  }

  /** Waiting longer never yields a lesser greeting: nothing, then welcome back, then greeting. */
  lemma DecideMonotone(status: StatusTable, who: string, t1: int, t2: int, wbPeriod: int, coolingOffPeriod: int)
    requires t1 <= t2
    ensures Rank(Decide(status, who, t1, wbPeriod, coolingOffPeriod))
         <= Rank(Decide(status, who, t2, wbPeriod, coolingOffPeriod))
  {
  }

  /** Greeting touches `who`'s `last_greet` only: keys, other nicks and other fields stay. */
  lemma GreetedFrame(status: StatusTable, who: string, now: int, g: Greeting)
    requires g != Silent ==> who in status
    ensures var t := Greeted(status, who, now, g);
      && t.Keys == status.Keys
      && (forall other :: other in status && other != who ==> t[other] == status[other])
      && (who in status ==> t[who] == status[who].(lastGreet := t[who].lastGreet))
      && (g != Silent ==> t[who].lastGreet == Some(now))
  {
  }

  /** After saying something, the same nick is left alone for the welcome-back period. */
  lemma CoolDown(status: StatusTable, who: string, now: int, later: int, wbPeriod: int, coolingOffPeriod: int)
    requires Decide(status, who, now, wbPeriod, coolingOffPeriod) != Silent
    requires now <= later < now + wbPeriod
    ensures var t := Greeted(status, who, now, Decide(status, who, now, wbPeriod, coolingOffPeriod));
      Decide(t, who, later, wbPeriod, coolingOffPeriod) == Silent
  {
  }

  // ---------------------------------------------------------------------------
  // message_hook: mention tracking
  // ---------------------------------------------------------------------------

  /** `needle` occurs in `hay` starting at position `i`. */
  predicate OccursAt(hay: string, needle: string, i: int) {
    0 <= i && i + |needle| <= |hay| && hay[i..i + |needle|] == needle
  }

  /** `text =~ /#{me}/i`, reading `me` as plain text: a case-insensitive substring test. */
  predicate Mentions(text: string, me: string): (b: bool)
    ensures me == [] ==> b
    ensures b ==> |me| <= |text|
  {
    assert me == [] ==> OccursAt(Downcase(text), Downcase(me), 0);
    exists i :: 0 <= i <= |text| && OccursAt(Downcase(text), Downcase(me), i)
  }

  /** Sets `who`'s mention time and text, creating the entry when absent. */
  function RecordMention(status: StatusTable, who: string, now: int, text: string): (t: StatusTable)
    ensures t.Keys == status.Keys + {who}
    ensures t[who].lastMentionTime == Some(now) && t[who].lastMentionWord == Some(text)
    ensures forall k :: k in status && k != who ==> t[k] == status[k]
  {
    var entry := if who in status then status[who] else Unseen;
    status[who := entry.(lastMentionTime := Some(now), lastMentionWord := Some(text))]
  }

  /** The table after `message_hook` sees `text` from `sender` while this client is `ownNick`. */
  function AfterMessage(status: StatusTable, ownNick: string, sender: string, text: string, now: int): (t: StatusTable)
    ensures status.Keys <= t.Keys <= status.Keys + {NormalizeNick(sender)}
    ensures forall k :: k in status && k != NormalizeNick(sender) ==> t[k] == status[k]
  {
    if Mentions(text, NormalizeNick(ownNick)) then RecordMention(status, NormalizeNick(sender), now, text)
    else status
  }

  /**
   * A message mentioning the own nick stamps the sender's mention time and
   * text and leaves everything else; any other message changes nothing.
   */
  lemma AfterMessageEffect(status: StatusTable, ownNick: string, sender: string, text: string, now: int)
    ensures var t := AfterMessage(status, ownNick, sender, text, now);
      var who := NormalizeNick(sender);
      if Mentions(text, NormalizeNick(ownNick)) then
        && t.Keys == status.Keys + {who}
        && t[who].lastMentionTime == Some(now) && t[who].lastMentionWord == Some(text)
        && t[who].lastGreet == (if who in status then status[who].lastGreet else None)
        && t[who].joinedTime == (if who in status then status[who].joinedTime else None)
        && t[who].leftTime == (if who in status then status[who].leftTime else None)
        && (forall other :: other in status && other != who ==> t[other] == status[other])
      else t == status
  {
  }

  /** The own nick, in any case, is always a mention. */
  lemma OwnNickMentions(ownNick: string, prefix: string, suffix: string)
    ensures Mentions(prefix + ownNick + suffix, NormalizeNick(ownNick)) || '\n' in ownNick
  {
    if '\n' !in ownNick {
      var me := NormalizeNick(ownNick);
      NormalizeNickPrefix(ownNick);
      var text := prefix + ownNick + suffix;
      assert Downcase(me) == me by { DowncaseIdempotent(CutAtEachLine(CutAtEachLine(ownNick, '|'), '_')); }
      assert Downcase(text)[|prefix|..|prefix| + |me|] == me;
      assert OccursAt(Downcase(text), Downcase(me), |prefix|);
    }
  }

  /**
   * Whoever mentions the own nick gets a status entry, so a later join of
   * theirs can be greeted even when they are not a known nick. The entry
   * was never greeted, so the decision is the full greeting unless
   * `wb_period` exceeds `cooling_off_period + 1`, when it is silence.
   */
  lemma MentionMakesGreetable(status: StatusTable, who: string, now: int, text: string,
                              later: int, wbPeriod: int, coolingOffPeriod: int)
    requires who !in status
    ensures var g := Decide(RecordMention(status, who, now, text), who, later, wbPeriod, coolingOffPeriod);
      && (g == FullGreeting <==> wbPeriod <= coolingOffPeriod + 1)
      && (g == Silent <==> wbPeriod > coolingOffPeriod + 1)
  {
  }

  // ---------------------------------------------------------------------------
  // away? and the hook gates
  // ---------------------------------------------------------------------------

  /** Position `j` is where `$` matches: the end of the string or before a line feed. */
  predicate LineEndAt(s: string, j: int) {
    0 <= j <= |s| && (j == |s| || s[j] == '\n')
  }

  /** The alternatives of `/awa?y$|out$|afk$|bb[sl]$|lunch$/`. */
  const AwaySuffixes: seq<string> := ["away", "awy", "out", "afk", "bbs", "bbl", "lunch"]

  /** The own nick ends a line with an away marker (case-sensitive). */
  predicate AwayNick(nick: string): (b: bool)
    ensures b ==> |nick| >= 3
  {
    exists j, k :: 0 <= j <= |nick| && 0 <= k < |AwaySuffixes| && LineEndAt(nick, j) && OccursAt(nick, AwaySuffixes[k], j - |AwaySuffixes[k]|)
  }

  /** `away?`: an away message is set, or the own nick says so. */
  predicate Away(awayMessage: Option<string>, ownNick: string) {
    awayMessage.Some? || AwayNick(ownNick)
  }

  /** The words of `/[\|\_](afk|away|awy|zzz|bbl|brb|out)/i`. */
  const AwayMarks: seq<string> := ["afk", "away", "awy", "zzz", "bbl", "brb", "out"]

  /** `nick =~ away_re`: a `|` or `_` followed by an away word, in any case. */
  predicate AwayMarked(nick: string): (b: bool)
    ensures b ==> ('|' in nick || '_' in nick) && |nick| >= 4
  {
    exists i, k :: 0 <= i < |nick| && 0 <= k < |AwayMarks| && (nick[i] == '|' || nick[i] == '_')
      && OccursAt(Downcase(nick), AwayMarks[k], i + 1)
  }

  /** `s.gsub(/^#/, '')`: a `#` that starts a line is removed. */
  function DropLineInitialHash(s: string, atLineStart: bool): (r: string)
    ensures |r| <= |s|
    ensures '#' !in s ==> r == s
    ensures forall x :: x in r ==> x in s
  {
    if s == [] then []
    else if atLineStart && s[0] == '#' then DropLineInitialHash(s[1..], false)
    else [s[0]] + DropLineInitialHash(s[1..], s[0] == '\n')
  }

  function ChannelName(channel: string): (r: string)
    ensures '#' !in channel ==> r == channel
  {
    DropLineInitialHash(channel, true)
  }

  lemma {:induction false} NoLineStartKeeps(s: string)
    requires '\n' !in s
    ensures DropLineInitialHash(s, false) == s
  {
    if s != [] {
      NoLineStartKeeps(s[1..]);
    }
  }

  /** For a one-line channel name: one leading `#` removed, nothing else. */
  lemma ChannelNameSingleLine(channel: string)
    requires '\n' !in channel
    ensures ChannelName(channel) == if channel != [] && channel[0] == '#' then channel[1..] else channel
  {
    if channel != [] {
      NoLineStartKeeps(channel[1..]);
    }
  }

  /** `join_hook` greets only when not away and the channel, `#` removed, is a greet channel. */
  predicate JoinGate(away: bool, greetChannels: seq<string>, channel: string) {
    !away && ChannelName(channel) in greetChannels
  }

  /**
   * `nick_change_hook` greets only when not away, the NEW nick is in the
   * greet-channel list (as the code is written), the old nick carries an away
   * marker and the new one does not.
   */
  predicate NickChangeGate(away: bool, greetChannels: seq<string>, oldNick: string, newNick: string): (b: bool)
    ensures b ==> oldNick != newNick
  {
    !away && newNick in greetChannels && AwayMarked(oldNick) && !AwayMarked(newNick)
  }

  /** A nick like `bob|away` carries an away marker. */
  lemma AwaySuffixMarked(name: string)
    ensures AwayMarked(name + "|away")
  {
    var s := name + "|away";
    var i := |name|;
    assert s[i] == '|';
    assert Downcase(s)[i + 1..i + 5] == "away";
    assert OccursAt(Downcase(s), AwayMarks[1], i + 1);
  }

  /** A nick without `|` and `_` never does. */
  lemma PlainNickUnmarked(name: string)
    requires '|' !in name && '_' !in name
    ensures !AwayMarked(name)
  {
  }

  /** Ending the own nick with any of the away suffixes makes the client away. */
  lemma AwayBySuffix(name: string, k: int)
    requires 0 <= k < |AwaySuffixes|
    ensures Away(None, name + AwaySuffixes[k])
  {
    var nick := name + AwaySuffixes[k];
    assert nick[|name|..] == AwaySuffixes[k];
    assert LineEndAt(nick, |nick|) && OccursAt(nick, AwaySuffixes[k], |nick| - |AwaySuffixes[k]|);
  }

  /** Joining `#name` passes the join gate exactly when not away and `name` is a greet channel. */
  lemma JoinGateChannel(away: bool, greetChannels: seq<string>, name: string)
    requires '\n' !in name
    ensures JoinGate(away, greetChannels, "#" + name) <==> !away && name in greetChannels
  {
    ChannelNameSingleLine("#" + name);
    assert ("#" + name)[1..] == name;
  }

  /**
   * Coming back from `name|away` to `name` passes the nick-change gate when
   * not away and `name` itself is in the greet-channel list.
   */
  lemma NickChangeBack(greetChannels: seq<string>, name: string)
    requires '|' !in name && '_' !in name && name in greetChannels
    ensures NickChangeGate(false, greetChannels, name + "|away", name)
  {
    AwaySuffixMarked(name);
    PlainNickUnmarked(name);
  }
}
