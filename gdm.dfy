/** The GDM discovery object of netdisco/gdm.py:14-87, with the network taken
    out: each scan is given the replies that recvfrom returned, in arrival
    order, before the receive timed out. */
module Gdm {
  import opened Wrappers
  import opened GdmReply
  import opened GdmScan
  import opened GdmFilters

  class GDM {
    /** The entries found by the last scan. */
    var entries: seq<Entry>

    constructor ()
      ensures entries == []
    {
      entries := [];
    }

    /** update: entries is emptied, then each reply is parsed in turn; an
        accepted reply appends its entry, a dropped one nothing, and the first
        exception ends the scan, leaving what was appended before it. */
    method Update(replies: seq<Reply>) returns (failure: Option<Error>)
      modifies this
      ensures entries == Collect(Outcomes(replies)).entries
      ensures failure == Collect(Outcomes(replies)).failure
      ensures failure.None? ==> entries == AcceptedEntries(Outcomes(replies))
                                && |entries| == |AcceptedIndices(Outcomes(replies))|
    {
      ghost var outs := Outcomes(replies);
      entries := [];
      var i := 0;
      while i < |replies|
        invariant 0 <= i <= |replies|
        invariant Collect(outs[..i]) == ScanResult(entries, None)
      {
        var reply := replies[i];
        var parsed := ParseReply(reply.payload);
        assert outs[i] == Outcome(parsed, reply.server);
        ScanStep(outs, i, entries);
        match parsed {
          case Failure(e) =>
            return Some(e);
          case Success(None) =>
          case Success(Some(data)) =>
            entries := entries + [Entry(data, reply.server)];
        }
        i := i + 1;
      }
      assert outs[..i] == outs;
      CollectMeaning(outs);
      AcceptedEntriesCount(outs);
      return None;
    }

    /** scan: update under the lock. */
    method Scan(replies: seq<Reply>) returns (failure: Option<Error>)
      modifies this
      ensures entries == Collect(Outcomes(replies)).entries
      ensures failure == Collect(Outcomes(replies)).failure
    {
      failure := Update(replies);
    }

    /** all: a fresh scan, then a copy of its entries. */
    method All(replies: seq<Reply>) returns (r: Result<seq<Entry>, Error>)
      modifies this
      ensures entries == Collect(Outcomes(replies)).entries
      ensures r == match Collect(Outcomes(replies)).failure
                   case Some(e) => Failure(e)
                   case None => Success(entries)
    {
      var failure := Scan(replies);
      if failure.Some? {
        return Failure(failure.value);
      }
      return Success(entries);
    }

    /** find_by_content_type: a fresh scan, then the entries whose
        Content_Type contains value, each as often as it occurs. */
    method FindByContentType(replies: seq<Reply>, value: string) returns (r: Result<seq<Entry>, Error>)
      modifies this
      ensures entries == Collect(Outcomes(replies)).entries
      ensures r == match Collect(Outcomes(replies)).failure
                   case Some(e) => Failure(e)
                   case None => ByContentType(entries, value)
      ensures r.Success? ==> forall e :: multiset(r.value)[e] ==
                                          if ContentTypeMatches(e, value) then multiset(entries)[e] else 0
    {
      var failure := Scan(replies);
      if failure.Some? {
        return Failure(failure.value);
      }
      r := ByContentType(entries, value);
      if r.Success? {
        ByContentTypeKeeps(entries, value);
      }
    }

    /** find_by_data: a fresh scan, then the entries that hold every
        search parameter as a header. The source's condition keeps every
        entry (GdmFilters.FindByDataKeepsAll); this is the search it
        describes. */
    method FindByData(replies: seq<Reply>, values: map<string, string>) returns (r: Result<seq<Entry>, Error>)
      modifies this
      ensures entries == Collect(Outcomes(replies)).entries
      ensures r == match Collect(Outcomes(replies)).failure
                   case Some(e) => Failure(e)
                   case None => Success(FindByDataIntended(entries, values))
      ensures r.Success? ==> IsSubsequence(r.value, entries)
    {
      var failure := Scan(replies);
      if failure.Some? {
        return Failure(failure.value);
      }
      return Success(FindByDataIntended(entries, values));
    }
  }
}
