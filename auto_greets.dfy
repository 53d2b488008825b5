/**
 * The automatic greeting plugin's state (`AutoGreets`): the settings the
 * configuration file assigns, the known nicks read from the `known_nicks`
 * file, and the per-nick status table that greetings and mentions update in
 * place. The decision rules live in `GreetingRules`; this module is the
 * object that applies them. Time is an integer number of seconds passed in
 * by the caller.
 */
module AutoGreetsPlugin {
  import opened Wrappers
  import opened RubyText
  import opened GreetingRules

  /**
   * `init_status`: one entry per known nick, every field nil. Keys that occur
   * more than once are entered once.
   */
  method InitStatus(knownNicks: seq<string>) returns (status: StatusTable)
    ensures status.Keys == set n | n in knownNicks
    ensures forall n :: n in status ==> status[n] == Unseen
  {
    status := map[];
    var i := 0;
    while i < |knownNicks|
      invariant 0 <= i <= |knownNicks|
      invariant status.Keys == set n | n in knownNicks[..i]
      invariant forall n :: n in status ==> status[n] == Unseen
    {
      assert knownNicks[..i + 1] == knownNicks[..i] + [knownNicks[i]];
      status := status[knownNicks[i] := Unseen];
      i := i + 1;
    }
    assert knownNicks[..i] == knownNicks;
  }

  /**
   * The statements a configuration file may run: the five setters
   * `define_method` generates and `add_greet_channel_list`.
   */
  datatype ConfigCall =
    | GreetWord(word: string)
    | WbWord(word: string)
    | Delay(seconds: int)
    | WbPeriod(seconds: int)
    | CoolingOffPeriod(seconds: int)
    | AddGreetChannel(channel: string)

  class AutoGreets {
    var greetWord: string
    var wbWord: string
    var delay: int
    var wbPeriod: int
    var coolingOffPeriod: int
    var greetChannelList: seq<string>
    /** Both files were found, so the hooks were registered. */
    var loaded: bool
    var knownNicks: seq<string>
    var status: StatusTable

    /** Every known nick keeps its status entry. */
    ghost predicate Valid()
      reads this
    {
      loaded ==> forall n :: n in knownNicks ==> n in status
    }

    /**
     * `initialize` with the default settings. `configFound` says whether
     * `greet.conf` exists and `nickFile` holds the contents of `known_nicks`
     * when that exists; when either is missing the plugin stops before
     * registering its hooks. The configuration's own statements are the
     * `Configure` calls that follow.
     */
    constructor (configFound: bool, nickFile: Option<string>)
      ensures greetWord == "hi" && wbWord == "welcome back" && delay == 5
      ensures wbPeriod == 3600 && coolingOffPeriod == 28800 && greetChannelList == []
      ensures loaded <==> configFound && nickFile.Some?
      ensures loaded ==> knownNicks == KnownNicks(nickFile.value)
      ensures loaded ==> status.Keys == set n | n in knownNicks
      ensures loaded ==> forall n :: n in status ==> status[n] == Unseen
      ensures Valid()
    {
      greetWord := "hi";
      wbWord := "welcome back";
      delay := 5;
      wbPeriod := 60 * 60;
      coolingOffPeriod := 60 * 60 * 8;
      greetChannelList := [];
      if configFound && nickFile.Some? {
        var nicks := KnownNicks(nickFile.value);
        var table := InitStatus(nicks);
        loaded := true;
        knownNicks := nicks;
        status := table;
      } else {
        loaded := false;
        knownNicks := [];
        status := map[];
      }
    }

    /** One statement of the configuration file: a setter, or a channel appended to the list. */
    method Configure(call: ConfigCall)
      modifies this`greetWord, this`wbWord, this`delay, this`wbPeriod, this`coolingOffPeriod, this`greetChannelList
      ensures greetWord == (if call.GreetWord? then call.word else old(greetWord))
      ensures wbWord == (if call.WbWord? then call.word else old(wbWord))
      ensures delay == (if call.Delay? then call.seconds else old(delay))
      ensures wbPeriod == (if call.WbPeriod? then call.seconds else old(wbPeriod))
      ensures coolingOffPeriod == (if call.CoolingOffPeriod? then call.seconds else old(coolingOffPeriod))
      ensures greetChannelList == old(greetChannelList) + (if call.AddGreetChannel? then [call.channel] else [])
    {
      match call
      case GreetWord(w) => greetWord := w;
      case WbWord(w) => wbWord := w;
      case Delay(d) => delay := d;
      case WbPeriod(p) => wbPeriod := p;
      case CoolingOffPeriod(p) => coolingOffPeriod := p;
      case AddGreetChannel(ch) => greetChannelList := greetChannelList + [ch];
    }

    /**
     * `say_greetings_or_wb(who)`: decides from the time since `who`'s last
     * greeting, returns the line to say (after the configured delay) and
     * stamps `last_greet` when something is said.
     */
    method SayGreetingsOrWb(who: string, now: int) returns (said: Option<string>)
      requires loaded && Valid()
      modifies this`status
      ensures Valid()
      ensures var g := Decide(old(status), who, now, wbPeriod, coolingOffPeriod);
        && status == Greeted(old(status), who, now, g)
        && said == Utterance(g, who, greetWord, wbWord)
    {
      if who !in status {
        return None;
      }
      var period := if status[who].lastGreet.None? then coolingOffPeriod + 1 else now - status[who].lastGreet.value;
      if period < wbPeriod {
        return None;
      }
      if period < coolingOffPeriod {
        said := Some(wbWord + " " + who);
      } else {
        said := Some(greetWord + " " + who);
      }
      status := status[who := status[who].(lastGreet := Some(now))];
    }

    /**
     * `join_hook`: `joiner` joined `channel`. Greets the normalized nick only
     * when not away and the channel, `#` removed, is a greet channel.
     */
    method JoinHook(joiner: string, channel: string, awayMessage: Option<string>, ownNick: string, now: int)
      returns (said: Option<string>)
      requires loaded && Valid()
      modifies this`status
      ensures Valid()
      ensures JoinGate(Away(awayMessage, ownNick), greetChannelList, channel) ==>
        var who := NormalizeNick(joiner);
        var g := Decide(old(status), who, now, wbPeriod, coolingOffPeriod);
        status == Greeted(old(status), who, now, g) && said == Utterance(g, who, greetWord, wbWord)
      ensures !JoinGate(Away(awayMessage, ownNick), greetChannelList, channel) ==>
        status == old(status) && said == None
    {
      if Away(awayMessage, ownNick) || ChannelName(channel) !in greetChannelList {
        return None;
      }
      said := SayGreetingsOrWb(NormalizeNick(joiner), now);
    }

    /**
     * `nick_change_hook`: `oldNick` became `newNick`. Greets only when not
     * away, `newNick` is in the greet-channel list, and the nick change drops
     * an away marker.
     */
    method NickChangeHook(oldNick: string, newNick: string, awayMessage: Option<string>, ownNick: string, now: int)
      returns (said: Option<string>)
      requires loaded && Valid()
      modifies this`status
      ensures Valid()
      ensures NickChangeGate(Away(awayMessage, ownNick), greetChannelList, oldNick, newNick) ==>
        var who := NormalizeNick(newNick);
        var g := Decide(old(status), who, now, wbPeriod, coolingOffPeriod);
        status == Greeted(old(status), who, now, g) && said == Utterance(g, who, greetWord, wbWord)
      ensures !NickChangeGate(Away(awayMessage, ownNick), greetChannelList, oldNick, newNick) ==>
        status == old(status) && said == None
    {
      if Away(awayMessage, ownNick) || newNick !in greetChannelList {
        return None;
      }
      if AwayMarked(oldNick) && !AwayMarked(newNick) {
        said := SayGreetingsOrWb(NormalizeNick(newNick), now);
      } else {
        said := None;
      }
    }

    /**
     * `message_hook`: `sender` wrote `text` while this client's nick is
     * `ownNick`. A mention of the own normalized nick records the time and
     * the text under the sender's normalized nick.
     */
    method MessageHook(sender: string, text: string, ownNick: string, now: int)
      requires loaded && Valid()
      modifies this`status
      ensures Valid()
      ensures status == AfterMessage(old(status), ownNick, sender, text, now)
    {
      var me := NormalizeNick(ownNick);
      var who := NormalizeNick(sender);
      if Mentions(text, me) {
        var entry := if who in status then status[who] else Unseen;
        status := status[who := entry.(lastMentionTime := Some(now), lastMentionWord := Some(text))];
      }
    }
  }
}
