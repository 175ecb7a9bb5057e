/** One run of the receive loop of `GDM.update` (netdisco/gdm.py:58, 74-85).
    Each datagram is first parsed (GdmReply.ParseReply); the loop then acts on
    the outcome: it appends an entry, skips the reply, or is ended by the
    exception. */
module GdmScan {
  import opened Wrappers
  import opened GdmReply

  /** A parsed datagram: what ParseReply made of its payload, and its sender. */
  datatype Outcome = Outcome(parsed: Result<Option<map<string, string>>, Error>, from: Address)

  function OutcomeOf(reply: Reply): Outcome {
    Outcome(ParseReply(reply.payload), reply.server)
  }

  /** The outcomes of the datagrams, in arrival order. */
  function Outcomes(replies: seq<Reply>): (outs: seq<Outcome>)
    ensures |outs| == |replies|
    ensures forall i :: 0 <= i < |replies| ==> outs[i] == OutcomeOf(replies[i])
  {
    seq(|replies|, i requires 0 <= i < |replies| => OutcomeOf(replies[i]))
  }

  /** The entries list after the loop, and the exception that ended it, if
      any (None when the loop ended on the receive timeout). */
  datatype ScanResult = ScanResult(entries: seq<Entry>, failure: Option<Error>)

  predicate Accepted(o: Outcome) {
    o.parsed.Success? && o.parsed.value.Some?
  }

  predicate Raises(o: Outcome) {
    o.parsed.Failure?
  }

  /** The loop as update runs it, one reply at a time: entries starts empty,
      an accepted reply appends one entry, a dropped one appends nothing, and
      the first exception stops the loop with what was appended so far. */
  function Collect(outs: seq<Outcome>): ScanResult {
    if |outs| == 0 then ScanResult([], None)
    else
      var prev := Collect(outs[..|outs| - 1]);
      var o := outs[|outs| - 1];
      if prev.failure.Some? then prev
      else if Raises(o) then ScanResult(prev.entries, Some(o.parsed.error))
      else ScanResult(prev.entries + EntryOf(o), None)
  }

  /** What one reply contributes: its entry if it is accepted, else nothing. */
  function EntryOf(o: Outcome): (es: seq<Entry>)
    ensures |es| == if Accepted(o) then 1 else 0
    ensures Accepted(o) ==> es == [Entry(o.parsed.value.value, o.from)]
  {
    match o.parsed
    case Success(Some(data)) => [Entry(data, o.from)]
    case _ => []
  }

  /** Reference definition: the entries of the accepted replies, in arrival
      order, ignoring exceptions. */
  function AcceptedEntries(outs: seq<Outcome>): seq<Entry> {
    if |outs| == 0 then [] else EntryOf(outs[0]) + AcceptedEntries(outs[1..])
  }

  /** Positions of the accepted replies. */
  function AcceptedIndices(outs: seq<Outcome>): set<nat> {
    set i: nat | i < |outs| && Accepted(outs[i])
  }

  /** Position of the first reply that raises, or |outs| if none does. */
  function FirstFailure(outs: seq<Outcome>): (k: nat)
    ensures k <= |outs|
    ensures k < |outs| ==> Raises(outs[k])
    ensures forall j :: 0 <= j < k ==> !Raises(outs[j])
  {
    if |outs| == 0 then 0
    else if Raises(outs[0]) then 0
    else 1 + FirstFailure(outs[1..])
  }

  /** Each reply contributes its own entry at its own position. */
  lemma {:induction false} AcceptedEntriesConcat(a: seq<Outcome>, b: seq<Outcome>)
    ensures AcceptedEntries(a + b) == AcceptedEntries(a) + AcceptedEntries(b)
  {
    if |a| > 0 {
      assert (a + b)[0] == a[0];
      assert (a + b)[1..] == a[1..] + b;
      AcceptedEntriesConcat(a[1..], b);
    } else {
      assert a + b == b;
    }
  }

  /** A reply placed anywhere in the batch adds exactly its own entry there:
      one entry, from its sender, if it is accepted, and none otherwise. */
  lemma ReplyContribution(before: seq<Outcome>, o: Outcome, after: seq<Outcome>)
    ensures AcceptedEntries(before + [o] + after)
            == AcceptedEntries(before) + EntryOf(o) + AcceptedEntries(after)
  {
    AcceptedEntriesConcat(before + [o], after);
    AcceptedEntriesConcat(before, [o]);
    assert [o][1..] == [];
    assert AcceptedEntries([o]) == EntryOf(o);
  }

  lemma AcceptedIndicesStep(outs: seq<Outcome>)
    requires |outs| > 0
    ensures var n := |outs| - 1;
            AcceptedIndices(outs) ==
              AcceptedIndices(outs[..n]) + if Accepted(outs[n]) then {n} else {}
  {
    var n := |outs| - 1;
    assert forall i :: 0 <= i < n ==> outs[..n][i] == outs[i];
  }

  /** There are as many entries as accepted replies. */
  lemma {:induction false} AcceptedEntriesCount(outs: seq<Outcome>)
    ensures |AcceptedEntries(outs)| == |AcceptedIndices(outs)|
    decreases |outs|
  {
    if |outs| > 0 {
      var n := |outs| - 1;
      var init := outs[..n];
      AcceptedEntriesCount(init);
      ReplyContribution(init, outs[n], []);
      InitPlusLast(outs);
      AcceptedIndicesStep(outs);
      assert n !in AcceptedIndices(init);
    }
  }

  /** e is the entry that the reply appends: its data is the reply's headers
      and its 'from' the reply's sender. */
  predicate Produced(o: Outcome, e: Entry) {
    o.from == e.from && o.parsed == Success(Some(e.data))
  }

  /** Every entry was built from one reply of this batch. */
  lemma {:induction false} AcceptedEntriesProvenance(outs: seq<Outcome>)
    ensures forall e :: e in AcceptedEntries(outs) ==>
              exists i :: 0 <= i < |outs| && Produced(outs[i], e)
  {
    if |outs| > 0 {
      AcceptedEntriesProvenance(outs[1..]);
      forall e | e in AcceptedEntries(outs)
        ensures exists i :: 0 <= i < |outs| && Produced(outs[i], e)
      {
        if e in EntryOf(outs[0]) {
          assert Produced(outs[0], e);
        } else {
          assert e in AcceptedEntries(outs[1..]);
          var i :| 0 <= i < |outs[1..]| && Produced(outs[1..][i], e);
          assert outs[i + 1] == outs[1..][i];
        }
      }
    }
  }

  lemma FirstFailureOfPrefix(outs: seq<Outcome>, n: nat)
    requires n <= |outs|
    ensures FirstFailure(outs[..n]) == if FirstFailure(outs) < n then FirstFailure(outs) else n
  {
    var k, k' := FirstFailure(outs), FirstFailure(outs[..n]);
    assert forall j :: 0 <= j < n ==> outs[..n][j] == outs[j];
    if k < n {
      assert Raises(outs[..n][k]);
    }
    if k' < n {
      assert Raises(outs[k']);
    }
  }

  lemma InitPlusLast(outs: seq<Outcome>)
    requires |outs| > 0
    ensures outs[..|outs| - 1] + [outs[|outs| - 1]] + [] == outs
  {
  }

  /** The last step of the loop. */
  lemma CollectStep(outs: seq<Outcome>)
    requires |outs| > 0
    ensures var prev, o := Collect(outs[..|outs| - 1]), outs[|outs| - 1];
            Collect(outs) ==
              if prev.failure.Some? then prev
              else if Raises(o) then ScanResult(prev.entries, Some(o.parsed.error))
              else ScanResult(prev.entries + EntryOf(o), None)
  {
  }

  /** One turn of update's loop, from a state with no exception yet: a raising
      reply ends the scan with its error and the entries so far, a dropped one
      changes nothing, and an accepted one appends its entry. */
  lemma ScanStep(outs: seq<Outcome>, i: nat, entries: seq<Entry>)
    requires i < |outs| && Collect(outs[..i]) == ScanResult(entries, None)
    ensures match outs[i].parsed
            case Failure(e) => Collect(outs) == ScanResult(entries, Some(e))
            case Success(None) => Collect(outs[..i + 1]) == ScanResult(entries, None)
            case Success(Some(data)) => Collect(outs[..i + 1]) == ScanResult(entries + [Entry(data, outs[i].from)], None)
  {
    assert outs[..i + 1][..i] == outs[..i];
    CollectStep(outs[..i + 1]);
    if outs[i].parsed.Failure? {
      CollectStopsAtFailure(outs, i + 1);
    }
  }

  /** The loop's result in terms of the reference definition: the entries of
      the accepted replies before the first reply that raises, and that
      reply's exception, or None when no reply raises. */
  lemma {:induction false} CollectMeaning(outs: seq<Outcome>)
    ensures Collect(outs).entries == AcceptedEntries(outs[..FirstFailure(outs)])
    ensures Collect(outs).failure ==
              if FirstFailure(outs) == |outs| then None else Some(outs[FirstFailure(outs)].parsed.error)
    decreases |outs|
  {
    if |outs| == 0 {
      assert outs[..0] == [];
    } else {
      var n := |outs| - 1;
      var init := outs[..n];
      var o := outs[n];
      var prev := Collect(init);
      CollectMeaning(init);
      CollectStep(outs);
      FirstFailureOfPrefix(outs, n);
      var k := FirstFailure(outs);
      if k < n {
        assert prev.failure.Some?;
        assert init[..k] == outs[..k];
        assert init[k] == outs[k];
      } else if k == n {
        assert init[..n] == init;
        assert outs[..k] == init;
        assert prev.failure.None?;
        assert Raises(o);
      } else {
        assert init[..n] == init;
        assert outs[..k] == outs;
        assert prev.failure.None? && !Raises(o);
        assert Collect(outs).entries == prev.entries + EntryOf(o);
        ReplyContribution(init, o, []);
        InitPlusLast(outs);
      }
    }
  }

  /** A batch without exceptions yields exactly the accepted replies' entries,
      one per accepted reply. */
  lemma CollectWithoutFailure(outs: seq<Outcome>)
    requires forall i :: 0 <= i < |outs| ==> !Raises(outs[i])
    ensures Collect(outs) == ScanResult(AcceptedEntries(outs), None)
    ensures |Collect(outs).entries| == |AcceptedIndices(outs)|
  {
    CollectMeaning(outs);
    assert outs[..|outs|] == outs;
    AcceptedEntriesCount(outs);
  }

  /** Nothing from an earlier scan can be in the result: every entry comes
      from a reply of this batch. */
  lemma CollectProvenance(outs: seq<Outcome>)
    ensures forall e :: e in Collect(outs).entries ==>
              exists i :: 0 <= i < |outs| && Produced(outs[i], e)
  {
    var k := FirstFailure(outs);
    assert Collect(outs).entries == AcceptedEntries(outs[..k]) by {
      CollectMeaning(outs);
    }
    AcceptedEntriesProvenance(outs[..k]);
    forall e | e in Collect(outs).entries
      ensures exists i :: 0 <= i < |outs| && Produced(outs[i], e)
    {
      var i :| 0 <= i < k && Produced(outs[..k][i], e);
      assert outs[..k][i] == outs[i];
    }
  }

  /** Once a reply raises, no later reply is looked at. */
  lemma {:induction false} CollectStopsAtFailure(outs: seq<Outcome>, n: nat)
    requires n <= |outs| && Collect(outs[..n]).failure.Some?
    ensures Collect(outs) == Collect(outs[..n])
    decreases |outs| - n
  {
    if n == |outs| {
      assert outs[..n] == outs;
    } else {
      var m := |outs| - 1;
      if n < m {
        assert outs[..m][..n] == outs[..n];
        CollectStopsAtFailure(outs[..m], n);
      }
      CollectStep(outs);
    }
  }
}
