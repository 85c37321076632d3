/** Subscription rules (rule.go) and the scan both sides run over them for every incoming
    message (server.go `handleMessages`, client.go `handleResponses`). */
module Rules {
  import opened Base
  import opened Messages

  /** The handler a rule runs. Handlers are application code; the model only tells them
      apart: the server's handshake handler, the client's forwarding of a reply to the
      waiting `Req` caller, or an application handler identified by a tag. */
  datatype Handler = Handshake | Forward | User(tag: nat)

  /** A rule: a handler, whether it is one-shot and has fired, and three filters. A nil id,
      an empty name and an empty author are wildcards. */
  datatype Rule = Rule(handler: Handler, once: bool, called: bool,
                       msgID: Slice, msgName: seq<byte>, msgAuthor: seq<byte>)

  /** The id and name filters, which both sides apply (the id through `BinEq`). */
  predicate IdNameMatch(r: Rule, m: Msg) {
    && (r.msgID.Nil? || r.msgID == m.id)
    && (r.msgName == [] || r.msgName == m.name)
  }

  /** The author filter, given the name of the first registered client whose id is the
      message's author (None when there is none): it only rejects a known, other name. */
  predicate AuthorPasses(r: Rule, authorName: Option<seq<byte>>) {
    r.msgAuthor == [] || authorName.None? || authorName.value == r.msgAuthor
  }

  /** Whether a rule is launched for a message it matches: a persistent rule always, a
      one-shot rule only while it has not been called. */
  predicate Fires(r: Rule, matched: bool) {
    matched && (!r.once || !r.called)
  }

  /** The rules the scan launches, given which of them match, in table order. */
  function Launches(rules: seq<Rule>, hits: seq<bool>): (ix: seq<nat>)
    requires |hits| == |rules|
    decreases |rules|
  {
    if rules == [] then []
    else
      var k := |rules| - 1;
      Launches(rules[..k], hits[..k]) + (if Fires(rules[k], hits[k]) then [k] else [])
  }

  /** The table after the scan: every matching one-shot rule is marked called. */
  function Mark(rules: seq<Rule>, hits: seq<bool>): (after: seq<Rule>)
    requires |hits| == |rules|
  {
    seq(|rules|, i requires 0 <= i < |rules| =>
      if hits[i] && rules[i].once then rules[i].(called := true) else rules[i])
  }

  /** Two tables that differ at most in which rules have been called. */
  predicate SameFilters(a: seq<Rule>, b: seq<Rule>) {
    |a| == |b| && forall i :: 0 <= i < |a| ==> a[i].(called := false) == b[i].(called := false)
  }

  /** The launched indices are exactly the rules that fire, each once, in increasing order. */
  lemma {:induction false} LaunchesExactly(rules: seq<Rule>, hits: seq<bool>)
    requires |hits| == |rules|
    ensures var ix := Launches(rules, hits);
      && (forall i :: 0 <= i < |rules| ==> (i in ix <==> Fires(rules[i], hits[i])))
      && (forall i :: i in ix ==> i < |rules|)
      && (forall a, b :: 0 <= a < b < |ix| ==> ix[a] < ix[b])
    decreases |rules|
  {
    if rules != [] {
      var k := |rules| - 1;
      LaunchesExactly(rules[..k], hits[..k]);
      var ix, prev := Launches(rules, hits), Launches(rules[..k], hits[..k]);
      assert ix == prev + (if Fires(rules[k], hits[k]) then [k] else []);
      forall i | 0 <= i < k
        ensures i in ix <==> Fires(rules[i], hits[i])
      {
        assert rules[..k][i] == rules[i] && hits[..k][i] == hits[i];
      }
      forall a, b | 0 <= a < b < |ix|
        ensures ix[a] < ix[b]
      {
        if b >= |prev| {
          assert ix[a] == prev[a] && prev[a] in prev;
        }
      }
    }
  }

  /** The scan changes nothing but `called`, only ever sets it, and sets it exactly on the
      one-shot rules that matched. */
  lemma MarkOnlyCalls(rules: seq<Rule>, hits: seq<bool>)
    requires |hits| == |rules|
    ensures var after := Mark(rules, hits);
      && SameFilters(after, rules)
      && forall i :: 0 <= i < |rules| ==>
           after[i].called == (rules[i].called || (hits[i] && rules[i].once))
  {
  }

  /** What a run of scans over several messages yields: the launches for each message and
      the table afterwards. */
  datatype Dispatched = Dispatched(launches: seq<seq<nat>>, rules: seq<Rule>)

  /** Scanning one message after another, with `rows[j]` saying which rules message `j`
      matches. The filters never change, so which rules match does not depend on the
      scans before. */
  function DispatchAll(rules: seq<Rule>, rows: seq<seq<bool>>): (d: Dispatched)
    requires forall j :: 0 <= j < |rows| ==> |rows[j]| == |rules|
    ensures |d.launches| == |rows| && SameFilters(d.rules, rules)
    decreases |rows|
  {
    if rows == [] then Dispatched([], rules)
    else
      var n := |rows| - 1;
      var prev := DispatchAll(rules, rows[..n]);
      MarkOnlyCalls(prev.rules, rows[n]);
      Dispatched(prev.launches + [Launches(prev.rules, rows[n])], Mark(prev.rules, rows[n]))
  }

  /** One more message: the scans of the first `j + 1` messages are those of the first `j`
      followed by the scan of message `j`. */
  lemma DispatchAllNext(rules: seq<Rule>, rows: seq<seq<bool>>, j: nat)
    requires forall j :: 0 <= j < |rows| ==> |rows[j]| == |rules|
    requires j < |rows|
    ensures var prev := DispatchAll(rules, rows[..j]);
      |rows[j]| == |prev.rules| &&
      DispatchAll(rules, rows[..j + 1])
        == Dispatched(prev.launches + [Launches(prev.rules, rows[j])], Mark(prev.rules, rows[j]))
  {
    assert rows[..j + 1][..j] == rows[..j];
  }

  /** How many of the scans launched rule `i`. */
  function LaunchCount(launches: seq<seq<nat>>, i: nat): nat {
    if launches == [] then 0
    else LaunchCount(launches[..|launches| - 1], i) + (if i in launches[|launches| - 1] then 1 else 0)
  }

  /** How many of the messages rule `i` matches. */
  function HitCount(rows: seq<seq<bool>>, i: nat): nat {
    if rows == [] then 0
    else HitCount(rows[..|rows| - 1], i) + (if i < |rows[|rows| - 1]| && rows[|rows| - 1][i] then 1 else 0)
  }

  /** Over any run of messages, a persistent rule is launched once per message it matches;
      a one-shot rule is launched at most once in all, and not at all once called. It is
      marked called afterwards exactly when it was before or matched some message. */
  lemma {:induction false} LaunchCounts(rules: seq<Rule>, rows: seq<seq<bool>>, i: nat)
    requires forall j :: 0 <= j < |rows| ==> |rows[j]| == |rules|
    requires i < |rules|
    ensures var d := DispatchAll(rules, rows);
      && (!rules[i].once ==> LaunchCount(d.launches, i) == HitCount(rows, i))
      && (rules[i].once ==>
            LaunchCount(d.launches, i) == (if rules[i].called || HitCount(rows, i) == 0 then 0 else 1))
      && (rules[i].once ==> d.rules[i].called == (rules[i].called || HitCount(rows, i) > 0))
    decreases |rows|
  {
    if rows != [] {
      var n := |rows| - 1;
      var prev := DispatchAll(rules, rows[..n]);
      LaunchCounts(rules, rows[..n], i);
      MarkOnlyCalls(prev.rules, rows[n]);
      LaunchesExactly(prev.rules, rows[n]);
      var d := DispatchAll(rules, rows);
      assert d.launches[..n] == prev.launches;
      assert rows[..n] == rows[..|rows| - 1];
      assert prev.rules[i].(called := false) == rules[i].(called := false);
      assert prev.rules[i].once == rules[i].once;
    }
  }
}
