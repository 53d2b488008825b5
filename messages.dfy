/**
 * The schema `define_schema` creates and the record-level operations the data
 * access object uses: the `Messages` table is a Groonga `:array` table, so its
 * record ids are 1, 2, 3, ... in insertion order; `Topics` is a keyed table
 * whose keys are the topic strings messages refer to.
 */
module Messages {
  import opened Wrappers

  /** One row of `Messages`: the columns of `define_schema` plus the record id. */
  datatype Record = Record(
    id: nat,
    server: string,
    channel: string,
    nick: string,
    topic: Option<string>,   // a reference into Topics; None when the host had no topic
    message: string,
    timestamp: int)          // seconds

  /** The attribute hash handed to `add_message`: every column but the id. */
  datatype Attributes = Attributes(
    server: string,
    channel: string,
    nick: string,
    topic: Option<string>,
    message: string,
    timestamp: int)

  /** What `get_message_as_hash` builds from a record: every column but `topic`. */
  datatype MessageHash = MessageHash(
    id: nat,
    server: string,
    channel: string,
    nick: string,
    message: string,
    timestamp: int)

  /** The contents of one database: the Messages rows and the Topics keys. */
  datatype Store = Store(messages: seq<Record>, topics: set<string>)

  /** Record ids of an `:array` table are the 1-based insertion positions. */
  predicate IdsArePositions(rs: seq<Record>) {
    forall i :: 0 <= i < |rs| ==> rs[i].id == i + 1
  }

  /** Every topic a message refers to is a key of Topics. */
  predicate TopicsKnown(s: Store) {
    forall i :: 0 <= i < |s.messages| && s.messages[i].topic.Some? ==> s.messages[i].topic.value in s.topics
  }

  predicate WellFormed(s: Store) {
    IdsArePositions(s.messages) && TopicsKnown(s)
  }

  /** A store as Groonga keeps it. */
  type Archive = s: Store | WellFormed(s) witness Store([], {})

  /** The tables `define_schema` creates: both empty. */
  const EmptyArchive: Archive := Store([], {})

  predicate IdsIncreasing(rs: seq<Record>) {
    forall i, j :: 0 <= i < j < |rs| ==> rs[i].id < rs[j].id
  }

  predicate IdsDecreasing(rs: seq<Record>) {
    forall i, j :: 0 <= i < j < |rs| ==> rs[i].id > rs[j].id
  }

  predicate HashIdsIncreasing(hs: seq<MessageHash>) {
    forall i, j :: 0 <= i < j < |hs| ==> hs[i].id < hs[j].id
  }

  lemma PositionsIncrease(rs: seq<Record>)
    requires IdsArePositions(rs)
    ensures IdsIncreasing(rs)
  {
  }

  /** In an archive the record with id `k` sits at position `k - 1`, and only there. */
  lemma RecordById(s: Archive, x: Record)
    requires x in s.messages
    ensures 1 <= x.id <= |s.messages| && s.messages[x.id - 1] == x
  {
  }

  // ---------------------------------------------------------------------------
  // add_message
  // ---------------------------------------------------------------------------

  function AddTopic(topics: set<string>, topic: Option<string>): set<string> {
    if topic.Some? then topics + {topic.value} else topics
  }

  /**
   * `Groonga['Messages'].add(attributes)`: one new record after all others,
   * with the next id; its topic becomes a key of Topics if it was not one.
   */
  function Append(s: Archive, a: Attributes): (t: Archive)
    ensures |t.messages| == |s.messages| + 1
    ensures t.messages[..|s.messages|] == s.messages
    ensures var r := t.messages[|s.messages|];
      && (forall i :: 0 <= i < |s.messages| ==> s.messages[i].id < r.id)
      && r.server == a.server && r.channel == a.channel && r.nick == a.nick
      && r.topic == a.topic && r.message == a.message && r.timestamp == a.timestamp
    ensures a.topic.Some? ==> a.topic.value in t.topics
    ensures s.topics <= t.topics && |t.topics| <= |s.topics| + 1
    ensures forall k :: k in t.topics <==> k in s.topics || a.topic == Some(k)
  {
    var r := Record(|s.messages| + 1, a.server, a.channel, a.nick, a.topic, a.message, a.timestamp);
    Store(s.messages + [r], AddTopic(s.topics, a.topic))
  }

  /** The new id is one greater than the previous highest id (0 for an empty table). */
  lemma AppendIdFollowsHighest(s: Archive, a: Attributes)
    ensures var t := Append(s, a);
      t.messages[|s.messages|].id == 1 + (if s.messages == [] then 0 else s.messages[|s.messages| - 1].id)
  {
  }

  /** Adding a message whose topic is already a key leaves Topics as it is. */
  lemma AppendKnownTopic(s: Archive, a: Attributes)
    requires a.topic.Some? && a.topic.value in s.topics
    ensures Append(s, a).topics == s.topics
  {
  }

  // ---------------------------------------------------------------------------
  // Table selection, sorting by _id, limits and projection
  // ---------------------------------------------------------------------------

  /** `table.select { ... }`: the records satisfying `p`, in table order. */
  function Select(rs: seq<Record>, p: Record -> bool): (r: seq<Record>)
    ensures |r| <= |rs|
    ensures forall x :: x in r <==> x in rs && p(x)
    ensures IdsIncreasing(rs) ==> IdsIncreasing(r)
  {
    if rs == [] then []
    else
      var rest := Select(rs[1..], p);
      assert forall x :: x in rs <==> x == rs[0] || x in rs[1..];
      FirstBelowRest(rs, rest);
      if p(rs[0]) then [rs[0]] + rest else rest
  }

  /** The head of an increasing sequence is below everything drawn from its tail. */
  lemma FirstBelowRest(rs: seq<Record>, rest: seq<Record>)
    requires rs != [] && forall x :: x in rest ==> x in rs[1..]
    ensures IdsIncreasing(rs) && IdsIncreasing(rest) ==> IdsIncreasing([rs[0]] + rest)
  {
    if IdsIncreasing(rs) && IdsIncreasing(rest) {
      forall j | 0 <= j < |rest| ensures rs[0].id < rest[j].id {
        assert rest[j] in rs[1..];
        var i :| 0 <= i < |rs[1..]| && rs[1..][i] == rest[j];
        assert rs[i + 1] == rest[j];
      }
    }
  }

  lemma {:induction false} SelectAppend(rs: seq<Record>, x: Record, p: Record -> bool)
    ensures Select(rs + [x], p) == Select(rs, p) + (if p(x) then [x] else [])
  {
    if rs == [] {
      assert rs + [x] == [x];
    } else {
      assert (rs + [x])[1..] == rs[1..] + [x];
      SelectAppend(rs[1..], x, p);
    }
  }

  function Reverse<T>(s: seq<T>): (r: seq<T>)
    ensures |r| == |s|
  {
    seq(|s|, i requires 0 <= i < |s| => s[|s| - 1 - i])
  }

  lemma ReverseReverse<T>(s: seq<T>)
    ensures Reverse(Reverse(s)) == s
  {
  }

  lemma ReverseMultiset<T>(s: seq<T>)
    ensures multiset(Reverse(s)) == multiset(s)
  {
    if s != [] {
      var t := s[1..];
      ReverseMultiset(t);
      assert Reverse(s) == Reverse(t) + [s[0]];
      assert s == [s[0]] + t;
    }
  }

  datatype Order = Ascending | Descending

  /**
   * `sort([["_id", order]])` applied to a selection. A selection comes out of
   * the table in id order already, so sorting is the identity or a reversal.
   */
  function SortById(rs: seq<Record>, order: Order): (r: seq<Record>)
    requires IdsIncreasing(rs)
    ensures multiset(r) == multiset(rs)
    ensures order == Ascending ==> IdsIncreasing(r)
    ensures order == Descending ==> IdsDecreasing(r)
  {
    ReverseMultiset(rs);
    if order == Ascending then rs else Reverse(rs)
  }

  function Min(a: nat, b: nat): nat { if a <= b then a else b }

  /** `:limit => n`: the first `n` elements, or all when there are fewer. */
  function Limit<T>(s: seq<T>, n: nat): (r: seq<T>)
    ensures r <= s && |r| == Min(n, |s|)
  {
    s[..Min(n, |s|)]
  }

  /** `get_message_as_hash`: the record without its topic. */
  function Project(r: Record): (h: MessageHash)
    ensures h.id == r.id && h.server == r.server && h.channel == r.channel
    ensures h.nick == r.nick && h.message == r.message && h.timestamp == r.timestamp
  {
    MessageHash(r.id, r.server, r.channel, r.nick, r.message, r.timestamp)
  }

  /** `collect { |r| get_message_as_hash(r) }`. */
  function ProjectAll(rs: seq<Record>): (hs: seq<MessageHash>)
    ensures |hs| == |rs|
    ensures forall i :: 0 <= i < |rs| ==> hs[i] == Project(rs[i])
  {
    seq(|rs|, i requires 0 <= i < |rs| => Project(rs[i]))
  }

  lemma ProjectAllConcat(xs: seq<Record>, ys: seq<Record>)
    ensures ProjectAll(xs + ys) == ProjectAll(xs) + ProjectAll(ys)
  {
  }

  lemma ProjectAllIncreasing(rs: seq<Record>)
    requires IdsIncreasing(rs)
    ensures HashIdsIncreasing(ProjectAll(rs))
  {
  }

  /** The `m` last elements (the ones with the highest ids in an increasing selection). */
  function Newest<T>(s: seq<T>, m: nat): (r: seq<T>)
    ensures |r| == Min(m, |s|)
    ensures r == s[|s| - |r|..]
  {
    s[|s| - Min(m, |s|)..]
  }

  /** Turning around, taking `m` and turning around again keeps the last `m`. */
  lemma ReverseLimitReverse<T>(s: seq<T>, m: nat)
    ensures Reverse(Limit(Reverse(s), m)) == Newest(s, m)
  {
    var k := Min(m, |s|);
    var lhs := Reverse(Limit(Reverse(s), m));
    forall i | 0 <= i < k ensures lhs[i] == s[|s| - k + i] {
      assert lhs[i] == Reverse(s)[k - 1 - i];
    }
  }

  lemma ProjectAllReverse(rs: seq<Record>)
    ensures ProjectAll(Reverse(rs)) == Reverse(ProjectAll(rs))
  {
  }

  /**
   * Sorting an increasing selection by descending id, keeping `m` and turning
   * the result around again keeps the `m` newest records in increasing order.
   */
  lemma DescendingLimitReversed(rs: seq<Record>, m: nat)
    requires IdsIncreasing(rs)
    ensures Reverse(ProjectAll(Limit(SortById(rs, Descending), m))) == ProjectAll(Newest(rs, m))
  {
    var limited := Limit(Reverse(rs), m);
    assert SortById(rs, Descending) == Reverse(rs);
    ProjectAllReverse(limited);
    ReverseReverse(ProjectAll(limited));
    ReverseLimitReverse(rs, m);
  }

  lemma NewestWithin<T>(s: seq<T>, m: nat)
    ensures forall x :: x in Newest(s, m) ==> x in s
  {
    var r := Newest(s, m);
    forall x | x in r ensures x in s {
      var j :| 0 <= j < |r| && r[j] == x;
      assert s[|s| - |r| + j] == x;
    }
  }

  /** The newest `m` of an increasing sequence beat everything left out. */
  lemma NewestAreHighest(rs: seq<Record>, m: nat, x: Record)
    requires IdsIncreasing(rs)
    requires x in rs && x !in Newest(rs, m)
    ensures forall y :: y in Newest(rs, m) ==> x.id < y.id
  {
    var k := Min(m, |rs|);
    var nw := Newest(rs, m);
    forall i | |rs| - k <= i < |rs| ensures rs[i] != x {
      assert rs[i] == nw[i - (|rs| - k)];
    }
    var j :| 0 <= j < |rs| && rs[j] == x;
    forall y | y in nw ensures x.id < y.id {
      var i :| 0 <= i < k && nw[i] == y;
      assert rs[|rs| - k + i] == y;
    }
  }

  /** Everything of an increasing sequence from the first of its `m` newest on is among them. */
  lemma NewestFrom(rs: seq<Record>, m: nat, x: Record)
    requires IdsIncreasing(rs)
    requires x in rs && Newest(rs, m) != [] && Newest(rs, m)[0].id <= x.id
    ensures x in Newest(rs, m)
  {
    var k := Min(m, |rs|);
    var j :| 0 <= j < |rs| && rs[j] == x;
    assert Newest(rs, m)[0] == rs[|rs| - k];
    assert j >= |rs| - k;
    assert Newest(rs, m)[j - (|rs| - k)] == x;
  }

  /** Everything of an increasing sequence up to the last of its first `m` is among them. */
  lemma LimitUpTo(rs: seq<Record>, m: nat, x: Record)
    requires IdsIncreasing(rs)
    requires x in rs && Limit(rs, m) != [] && x.id <= Limit(rs, m)[|Limit(rs, m)| - 1].id
    ensures x in Limit(rs, m)
  {
    var c := Limit(rs, m);
    var j :| 0 <= j < |rs| && rs[j] == x;
    assert c[|c| - 1] == rs[|c| - 1];
    assert j < |c|;
    assert c[j] == x;
  }
}
