/**
 * The two read paths of the data access object: conjunctive full-text search
 * within one server and channel (`find_message`) and the window of messages
 * around one message (`show_n_messages`). Full-text matching is done by
 * Groonga's tokenizer; it is the parameter `matches(text, word)` here.
 */
module Queries {
  import opened Wrappers
  import opened Messages

  /** `message:@w` holds for every word `w`. */
  predicate MatchesAll(text: string, words: seq<string>, matches: (string, string) -> bool) {
    forall i :: 0 <= i < |words| ==> matches(text, words[i])
  }

  /** The query `server:S + channel:C message:@w1 + message:@w2 ...`. */
  predicate FindFilter(r: Record, server: string, channel: string, words: seq<string>,
                       matches: (string, string) -> bool) {
    r.server == server && r.channel == channel && MatchesAll(r.message, words, matches)
  }

  /** The selection `find_message` sorts: every record the query matches, in id order. */
  function Matching(s: Archive, server: string, channel: string, words: seq<string>,
                    matches: (string, string) -> bool): (r: seq<Record>)
    ensures forall x :: x in r <==> x in s.messages && FindFilter(x, server, channel, words, matches)
    ensures IdsIncreasing(r)
  {
    PositionsIncrease(s.messages);
    Select(s.messages, FindPredicate(server, channel, words, matches))
  }

  function FindPredicate(server: string, channel: string, words: seq<string>,
                         matches: (string, string) -> bool): Record -> bool {
    x => FindFilter(x, server, channel, words, matches)
  }

  /** `find_message`: select, sort by descending id, keep `n`, project, reverse. */
  function FindMessage(s: Archive, server: string, channel: string, words: seq<string>, n: nat,
                       matches: (string, string) -> bool): (r: seq<MessageHash>)
    ensures |r| <= n && |r| <= |Matching(s, server, channel, words, matches)|
  {
    var selected := Matching(s, server, channel, words, matches);
    Reverse(ProjectAll(Limit(SortById(selected, Descending), n)))
  }

  /**
   * `find_message` returns the `min(n, k)` newest of the `k` matching records,
   * oldest first: the projection of a suffix of the matching selection.
   */
  lemma FindMessageIsNewestMatches(s: Archive, server: string, channel: string, words: seq<string>,
                                   n: nat, matches: (string, string) -> bool)
    ensures var selected := Matching(s, server, channel, words, matches);
      FindMessage(s, server, channel, words, n, matches) == ProjectAll(Newest(selected, n))
  {
    DescendingLimitReversed(Matching(s, server, channel, words, matches), n);
  }

  /** `find_message` returns at most `n` messages, with strictly increasing ids. */
  lemma FindMessageBounds(s: Archive, server: string, channel: string, words: seq<string>,
                          n: nat, matches: (string, string) -> bool)
    ensures var r := FindMessage(s, server, channel, words, n, matches);
      && |r| == Min(n, |Matching(s, server, channel, words, matches)|)
      && |r| <= n
      && HashIdsIncreasing(r)
  {
    var newest := Newest(Matching(s, server, channel, words, matches), n);
    FindMessageIsNewestMatches(s, server, channel, words, n, matches);
    ProjectAllIncreasing(newest);
  }

  /**
   * Every message `find_message` returns is the projection of the stored
   * record with its id, lies in the requested server and channel and matches
   * every word.
   */
  lemma FindMessageMatches(s: Archive, server: string, channel: string, words: seq<string>,
                           n: nat, matches: (string, string) -> bool)
    ensures var r := FindMessage(s, server, channel, words, n, matches);
      forall i :: 0 <= i < |r| ==>
        && r[i].server == server && r[i].channel == channel
        && MatchesAll(r[i].message, words, matches)
        && 1 <= r[i].id <= |s.messages| && Project(s.messages[r[i].id - 1]) == r[i]
  {
    var selected := Matching(s, server, channel, words, matches);
    var newest := Newest(selected, n);
    NewestWithin(selected, n);
    ProjectedMatches(s, server, channel, words, matches, newest);
    FindMessageIsNewestMatches(s, server, channel, words, n, matches);
    assert FindMessage(s, server, channel, words, n, matches) == ProjectAll(newest);
  }

  /** The projections of records drawn from the matching selection. */
  lemma ProjectedMatches(s: Archive, server: string, channel: string, words: seq<string>,
                         matches: (string, string) -> bool, rs: seq<Record>)
    requires forall x :: x in rs ==> x in Matching(s, server, channel, words, matches)
    ensures var hs := ProjectAll(rs);
      forall i :: 0 <= i < |hs| ==>
        && hs[i].server == server && hs[i].channel == channel
        && MatchesAll(hs[i].message, words, matches)
        && 1 <= hs[i].id <= |s.messages| && Project(s.messages[hs[i].id - 1]) == hs[i]
  {
    var hs := ProjectAll(rs);
    forall i | 0 <= i < |hs|
      ensures hs[i].server == server && hs[i].channel == channel
      ensures MatchesAll(hs[i].message, words, matches)
      ensures 1 <= hs[i].id <= |s.messages| && Project(s.messages[hs[i].id - 1]) == hs[i]
    {
      assert rs[i] in rs;
      RecordById(s, rs[i]);
    }
  }

  /** No matching record that `find_message` leaves out is newer than one it returns. */
  lemma FindMessageNewest(s: Archive, server: string, channel: string, words: seq<string>,
                          n: nat, matches: (string, string) -> bool, x: Record)
    requires x in Matching(s, server, channel, words, matches)
    requires Project(x) !in FindMessage(s, server, channel, words, n, matches)
    ensures var r := FindMessage(s, server, channel, words, n, matches);
      forall i :: 0 <= i < |r| ==> x.id < r[i].id
  {
    var selected := Matching(s, server, channel, words, matches);
    var newest := Newest(selected, n);
    var r := FindMessage(s, server, channel, words, n, matches);
    FindMessageIsNewestMatches(s, server, channel, words, n, matches);
    forall j | 0 <= j < |newest| ensures newest[j] != x {
      assert r[j] == Project(newest[j]);
    }
    NewestAreHighest(selected, n, x);
    forall i | 0 <= i < |r| ensures x.id < r[i].id {
      assert r[i] == Project(newest[i]);
      assert newest[i] in newest;
    }
  }

  /** With no words the search is a plain server and channel filter. */
  lemma FindMessageNoWords(s: Archive, server: string, channel: string, n: nat,
                           matches: (string, string) -> bool, x: Record)
    ensures x in Matching(s, server, channel, [], matches)
        <==> x in s.messages && x.server == server && x.channel == channel
  {
  }

  /** Dropping words from a query never loses a matching record. */
  lemma MatchingWidens(s: Archive, server: string, channel: string, words: seq<string>,
                       fewer: seq<string>, matches: (string, string) -> bool)
    requires forall w :: w in fewer ==> w in words
    ensures forall x :: x in Matching(s, server, channel, words, matches)
                    ==> x in Matching(s, server, channel, fewer, matches)
  {
    forall x | x in Matching(s, server, channel, words, matches)
      ensures MatchesAll(x.message, fewer, matches)
    {
      forall i | 0 <= i < |fewer| ensures matches(x.message, fewer[i]) {
        assert fewer[i] in words;
        var j :| 0 <= j < |words| && words[j] == fewer[i];
      }
    }
  }

  /**
   * A message just added is the newest result of a search in its own server
   * and channel for words it matches.
   */
  lemma {:induction false} FindAfterAppend(s: Archive, a: Attributes, words: seq<string>, n: nat,
                                           matches: (string, string) -> bool)
    requires n >= 1 && MatchesAll(a.message, words, matches)
    ensures var t := Append(s, a);
      var r := FindMessage(t, a.server, a.channel, words, n, matches);
      |r| >= 1 && r[|r| - 1] == Project(t.messages[|s.messages|])
  {
    var t := Append(s, a);
    var rec := t.messages[|s.messages|];
    assert t.messages == s.messages + [rec];
    SelectAppend(s.messages, rec, FindPredicate(a.server, a.channel, words, matches));
    var selected := Matching(t, a.server, a.channel, words, matches);
    assert selected == Matching(s, a.server, a.channel, words, matches) + [rec];
    FindMessageIsNewestMatches(t, a.server, a.channel, words, n, matches);
    var newest := Newest(selected, n);
    assert newest[|newest| - 1] == rec;
    assert ProjectAll(newest)[|newest| - 1] == Project(rec);
  }

  // ---------------------------------------------------------------------------
  // show_n_messages
  // ---------------------------------------------------------------------------

  /** The selection `record.id == msg_id`. */
  function WithId(s: Archive, msgId: int): (r: seq<Record>)
    ensures forall x :: x in r <==> x in s.messages && x.id == msgId
  {
    Select(s.messages, (x: Record) => x.id == msgId)
  }

  /** `server:S + channel:C + _id:<id`: the same-scope records older than `id`. */
  function OlderInScope(s: Archive, server: string, channel: string, msgId: int): (r: seq<Record>)
    ensures forall x :: x in r <==> x in s.messages && x.server == server && x.channel == channel && x.id < msgId
    ensures IdsIncreasing(r)
  {
    PositionsIncrease(s.messages);
    Select(s.messages, (x: Record) => x.server == server && x.channel == channel && x.id < msgId)
  }

  /** `server:S + channel:C + _id:>id`: the same-scope records newer than `id`. */
  function NewerInScope(s: Archive, server: string, channel: string, msgId: int): (r: seq<Record>)
    ensures forall x :: x in r <==> x in s.messages && x.server == server && x.channel == channel && x.id > msgId
    ensures IdsIncreasing(r)
  {
    PositionsIncrease(s.messages);
    Select(s.messages, (x: Record) => x.server == server && x.channel == channel && x.id > msgId)
  }

  /**
   * `show_n_messages`: `None` (Ruby's `nil`) when no record has id `msgId`;
   * otherwise up to `n/2` older same-scope messages (newest first, limited,
   * reversed), the message itself, then up to `n/2` newer ones ascending.
   */
  function ShowNMessages(s: Archive, msgId: int, n: nat): (r: Option<seq<MessageHash>>)
    ensures r.None? <==> forall x :: x in s.messages ==> x.id != msgId
    ensures r.Some? ==> |r.value| <= 2 * (n / 2) + 1
  {
    var found := ProjectAll(WithId(s, msgId));
    if |found| == 0 then None
    else
      var anchor := found[0];
      var before := OlderInScope(s, anchor.server, anchor.channel, msgId);
      var after := NewerInScope(s, anchor.server, anchor.channel, msgId);
      Some(Reverse(ProjectAll(Limit(SortById(before, Descending), n / 2)))
           + [anchor]
           + ProjectAll(Limit(SortById(after, Ascending), n / 2)))
  }

  /** Not found exactly when no stored record carries the id. */
  lemma ShowNMessagesNotFound(s: Archive, msgId: int, n: nat)
    ensures ShowNMessages(s, msgId, n).None? <==> forall x :: x in s.messages ==> x.id != msgId
    ensures ShowNMessages(s, msgId, n).None? <==> !(1 <= msgId <= |s.messages|)
  {
    if 1 <= msgId <= |s.messages| {
      assert s.messages[msgId - 1] in WithId(s, msgId);
    }
  }

  /**
   * The records behind the window, as three parts: the `n/2` newest older
   * same-scope records, the anchor record `msgId`, and the `n/2` oldest newer
   * same-scope records.
   */
  function Window(s: Archive, msgId: int, n: nat): seq<Record>
    requires 1 <= msgId <= |s.messages|
  {
    var a := s.messages[msgId - 1];
    Newest(OlderInScope(s, a.server, a.channel, msgId), n / 2)
      + [a]
      + Limit(NewerInScope(s, a.server, a.channel, msgId), n / 2)
  }

  lemma ShowNMessagesIsWindow(s: Archive, msgId: int, n: nat)
    requires 1 <= msgId <= |s.messages|
    ensures ShowNMessages(s, msgId, n) == Some(ProjectAll(Window(s, msgId, n)))
  {
    var a := s.messages[msgId - 1];
    var w := WithId(s, msgId);
    assert a in w;
    assert w[0] == a by {
      assert w[0] in w;
      RecordById(s, w[0]);
    }
    var older := OlderInScope(s, a.server, a.channel, msgId);
    var newer := NewerInScope(s, a.server, a.channel, msgId);
    var anchor := ProjectAll(w)[0];
    assert anchor == Project(a);
    DescendingLimitReversed(older, n / 2);
    var before := Reverse(ProjectAll(Limit(SortById(older, Descending), n / 2)));
    var after := ProjectAll(Limit(SortById(newer, Ascending), n / 2));
    assert ShowNMessages(s, msgId, n) == Some(before + [anchor] + after);
    assert before == ProjectAll(Newest(older, n / 2));
    assert after == ProjectAll(Limit(newer, n / 2));
    ProjectAllConcat(Newest(older, n / 2), [a]);
    ProjectAllConcat(Newest(older, n / 2) + [a], Limit(newer, n / 2));
    assert Window(s, msgId, n) == Newest(older, n / 2) + [a] + Limit(newer, n / 2);
    assert ProjectAll([a]) == [Project(a)];
  }

  lemma WindowIncreasing(s: Archive, msgId: int, n: nat)
    requires 1 <= msgId <= |s.messages|
    ensures IdsIncreasing(Window(s, msgId, n))
  {
    var a := s.messages[msgId - 1];
    var older := OlderInScope(s, a.server, a.channel, msgId);
    var newer := NewerInScope(s, a.server, a.channel, msgId);
    var b := Newest(older, n / 2);
    var c := Limit(newer, n / 2);
    var recs := Window(s, msgId, n);
    var k := |b|;
    forall i, j | 0 <= i < j < |recs| ensures recs[i].id < recs[j].id {
      if j < k {
        assert recs[i] == older[|older| - k + i] && recs[j] == older[|older| - k + j];
      } else if i < k {
        assert recs[i] == older[|older| - k + i];
        assert recs[i] in older;
        if j > k { assert recs[j] == newer[j - k - 1]; assert recs[j] in newer; }
      } else if i == k {
        assert recs[j] == newer[j - k - 1];
        assert recs[j] in newer;
      } else {
        assert recs[i] == newer[i - k - 1] && recs[j] == newer[j - k - 1];
      }
    }
  }

  lemma WindowInScope(s: Archive, msgId: int, n: nat)
    requires 1 <= msgId <= |s.messages|
    ensures var a := s.messages[msgId - 1];
      forall x :: x in Window(s, msgId, n) ==> x.server == a.server && x.channel == a.channel
  {
    var a := s.messages[msgId - 1];
    var older := OlderInScope(s, a.server, a.channel, msgId);
    var newer := NewerInScope(s, a.server, a.channel, msgId);
    var b := Newest(older, n / 2);
    var c := Limit(newer, n / 2);
    assert forall x :: x in b ==> x in older;
    assert forall x :: x in c ==> x in newer;
  }

  /** No same-scope record between the window's first and last is missing from it. */
  lemma WindowContiguous(s: Archive, msgId: int, n: nat, x: Record)
    requires 1 <= msgId <= |s.messages|
    requires x in s.messages
    requires var a := s.messages[msgId - 1]; x.server == a.server && x.channel == a.channel
    requires var w := Window(s, msgId, n); w[0].id <= x.id <= w[|w| - 1].id
    ensures x in Window(s, msgId, n)
  {
    var a := s.messages[msgId - 1];
    var older := OlderInScope(s, a.server, a.channel, msgId);
    var newer := NewerInScope(s, a.server, a.channel, msgId);
    var b := Newest(older, n / 2);
    var c := Limit(newer, n / 2);
    var recs := Window(s, msgId, n);
    assert recs == b + [a] + c;
    RecordById(s, x);
    if x.id < msgId {
      assert x in older;
      assert b != [] && recs[0] == b[0];
      NewestFrom(older, n / 2, x);
    } else if x.id > msgId {
      assert x in newer;
      assert c != [] && recs[|recs| - 1] == c[|c| - 1];
      LimitUpTo(newer, n / 2, x);
    }
  }

  /**
   * What a caller of `show_n_messages` gets for an existing anchor: strictly
   * increasing ids, the anchor exactly once (after the older part), every
   * message in the anchor's server and channel, and at most `n/2` messages on
   * each side.
   */
  lemma ShowNMessagesWindow(s: Archive, msgId: int, n: nat)
    requires 1 <= msgId <= |s.messages|
    ensures ShowNMessages(s, msgId, n).Some?
    ensures var a := s.messages[msgId - 1];
      var w := ShowNMessages(s, msgId, n).value;
      var k := |Newest(OlderInScope(s, a.server, a.channel, msgId), n / 2)|;
      && k <= n / 2 && |w| - k - 1 <= n / 2
      && |w| <= 2 * (n / 2) + 1
      && w[k] == Project(a)
      && (forall i :: 0 <= i < |w| ==> (w[i].id == msgId <==> i == k))
      && HashIdsIncreasing(w)
      && (forall i :: 0 <= i < |w| ==> w[i].server == a.server && w[i].channel == a.channel)
  {
    var a := s.messages[msgId - 1];
    var recs := Window(s, msgId, n);
    ShowNMessagesIsWindow(s, msgId, n);
    WindowIncreasing(s, msgId, n);
    WindowInScope(s, msgId, n);
    ProjectAllIncreasing(recs);
    var w := ShowNMessages(s, msgId, n).value;
    var k := |Newest(OlderInScope(s, a.server, a.channel, msgId), n / 2)|;
    assert recs[k] == a;
    forall i | 0 <= i < |w| ensures w[i].server == a.server && w[i].channel == a.channel {
      assert recs[i] in recs;
    }
  }

  /**
   * Each side holds the nearest same-scope messages: no message of the
   * anchor's server and channel between the first and the last one shown is
   * left out.
   */
  lemma ShowNMessagesNearest(s: Archive, msgId: int, n: nat, x: Record)
    requires 1 <= msgId <= |s.messages|
    requires x in s.messages
    requires var a := s.messages[msgId - 1]; x.server == a.server && x.channel == a.channel
    ensures var w := ShowNMessages(s, msgId, n);
      w.Some? && w.value != [] &&
      (w.value[0].id <= x.id <= w.value[|w.value| - 1].id ==> Project(x) in w.value)
  {
    ShowNMessagesIsWindow(s, msgId, n);
    ProjectedWindowNearest(s, msgId, n, x);
  }

  lemma ProjectedWindowNearest(s: Archive, msgId: int, n: nat, x: Record)
    requires 1 <= msgId <= |s.messages|
    requires x in s.messages
    requires var a := s.messages[msgId - 1]; x.server == a.server && x.channel == a.channel
    ensures var w := ProjectAll(Window(s, msgId, n));
      w != [] && (w[0].id <= x.id <= w[|w| - 1].id ==> Project(x) in w)
  {
    var recs := Window(s, msgId, n);
    var w := ProjectAll(recs);
    assert |w| == |recs| > 0;
    if w[0].id <= x.id <= w[|w| - 1].id {
      assert recs[0].id == w[0].id && recs[|recs| - 1].id == w[|w| - 1].id;
      WindowContiguous(s, msgId, n, x);
      var j :| 0 <= j < |recs| && recs[j] == x;
      assert w[j] == Project(x);
    }
  }
}
