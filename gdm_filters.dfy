/** The filtering accessors of GDM (netdisco/gdm.py:35-49), over the entries
    a scan left behind. */
module GdmFilters {
  import opened Wrappers
  import opened PyStr
  import opened GdmReply

  const ContentTypeKey: string := "Content_Type"

  /** a is b with some elements left out and the others kept in order. */
  predicate IsSubsequence<T(==)>(a: seq<T>, b: seq<T>)
    decreases |b|
  {
    if |a| == 0 then true
    else if |b| == 0 then false
    else (a[0] == b[0] && IsSubsequence(a[1..], b[1..])) || IsSubsequence(a, b[1..])
  }

  /** One step of a filter: keeping x in front of what the filter kept of
      the rest keeps the order, and keeps each element as often as it occurs
      when it passes the test and never otherwise. */
  lemma FilterCons<T>(x: T, tail: seq<T>, rest: seq<T>, keep: T -> bool)
    requires IsSubsequence(rest, tail)
    requires forall y :: multiset(rest)[y] == if keep(y) then multiset(tail)[y] else 0
    ensures var r := if keep(x) then [x] + rest else rest;
            && IsSubsequence(r, [x] + tail)
            && forall y :: multiset(r)[y] == if keep(y) then multiset([x] + tail)[y] else 0
  {
    assert ([x] + tail)[1..] == tail;
    if keep(x) {
      assert ([x] + rest)[1..] == rest;
    } else if |rest| > 0 {
      assert IsSubsequence(rest, ([x] + tail)[1..]);
    }
  }

  /** `value in entry['data']['Content_Type']`, for an entry that has the key. */
  predicate ContentTypeMatches(e: Entry, value: string) {
    ContentTypeKey in e.data && Contains(e.data[ContentTypeKey], value)
  }

  /** The comprehension of find_by_content_type, entry by entry: the first
      entry without a Content_Type header raises KeyError. */
  function ByContentType(entries: seq<Entry>, value: string): Result<seq<Entry>, Error> {
    if |entries| == 0 then Success([])
    else
      var e := entries[0];
      if ContentTypeKey !in e.data then Failure(KeyError(ContentTypeKey))
      else match ByContentType(entries[1..], value)
        case Failure(err) => Failure(err)
        case Success(rest) => Success(if Contains(e.data[ContentTypeKey], value) then [e] + rest else rest)
  }

  /** A single entry without a Content_Type header makes the whole call raise
      KeyError, and nothing else does. */
  lemma {:induction false} ByContentTypeFailure(entries: seq<Entry>, value: string)
    ensures ByContentType(entries, value).Failure? <==>
              exists i :: 0 <= i < |entries| && ContentTypeKey !in entries[i].data
    ensures ByContentType(entries, value).Failure? ==>
              ByContentType(entries, value).error == KeyError(ContentTypeKey)
  {
    if |entries| > 0 {
      var tail := entries[1..];
      ByContentTypeFailure(tail, value);
      assert forall i :: 0 <= i < |tail| ==> tail[i] == entries[i + 1];
      assert forall i :: 0 < i < |entries| ==> entries[i] == tail[i - 1];
    }
  }

  /** When no entry lacks the header, the result is, in order and with their
      repetitions, exactly the entries whose Content_Type contains value. */
  lemma {:induction false} ByContentTypeKeeps(entries: seq<Entry>, value: string)
    requires ByContentType(entries, value).Success?
    ensures IsSubsequence(ByContentType(entries, value).value, entries)
    ensures forall e :: multiset(ByContentType(entries, value).value)[e] ==
                          if ContentTypeMatches(e, value) then multiset(entries)[e] else 0
  {
    if |entries| > 0 {
      var e, tail := entries[0], entries[1..];
      assert entries == [e] + tail;
      ByContentTypeKeeps(tail, value);
      FilterCons(e, tail, ByContentType(tail, value).value, x => ContentTypeMatches(x, value));
    }
  }

  /** The Python values the condition of a comprehension can have here: a
      bool, or the generator object that a bare generator expression
      evaluates to. */
  datatype Condition = Bool(b: bool) | GeneratorObject

  /** Python truth testing: a generator object defines neither __bool__ nor
      __len__, so like any such object it is true. */
  predicate Truthy(c: Condition) {
    match c
    case Bool(b) => b
    case GeneratorObject => true
  }

  /** The condition of find_by_data's comprehension for one entry: the
      expression `(item in values.items() for item in entry['data'].items())`
      builds a generator and never runs it, so neither the entry nor values
      is looked at. */
  function DataCondition(e: Entry, values: map<string, string>): Condition {
    GeneratorObject
  }

  /** find_by_data as written: the comprehension keeps an entry when its
      condition is true. */
  function FindByDataAsWritten(entries: seq<Entry>, values: map<string, string>): seq<Entry> {
    if |entries| == 0 then []
    else
      var rest := FindByDataAsWritten(entries[1..], values);
      if Truthy(DataCondition(entries[0], values)) then [entries[0]] + rest else rest
  }

  /** So, whatever values holds, no entry is left out. */
  lemma {:induction false} FindByDataKeepsAll(entries: seq<Entry>, values: map<string, string>)
    ensures FindByDataAsWritten(entries, values) == entries
  {
    if |entries| > 0 {
      FindByDataKeepsAll(entries[1..], values);
      assert Truthy(DataCondition(entries[0], values));
      assert entries == [entries[0]] + entries[1..];
    }
  }

  /** The search find_by_data's docstring describes: every (key, value) pair
      of values is a header of the entry. */
  predicate MatchesValues(e: Entry, values: map<string, string>) {
    forall k :: k in values ==> k in e.data && e.data[k] == values[k]
  }

  /** find_by_data as intended: the entries that match every search
      parameter, in their order and with their repetitions. */
  function FindByDataIntended(entries: seq<Entry>, values: map<string, string>): (r: seq<Entry>)
    ensures IsSubsequence(r, entries)
    ensures forall e :: multiset(r)[e] == if MatchesValues(e, values) then multiset(entries)[e] else 0
  {
    if |entries| == 0 then []
    else
      var e, tail := entries[0], entries[1..];
      assert entries == [e] + tail;
      var rest := FindByDataIntended(tail, values);
      FilterCons(e, tail, rest, x => MatchesValues(x, values));
      if MatchesValues(e, values) then [e] + rest else rest
  }

  /** As written, find_by_data returns an entry that fails the search; the
      intended filter leaves it out. */
  lemma FindByDataDoesNotFilter(server: Address)
    ensures var audio := Entry(map[ContentTypeKey := "audio"], server);
            var query := map[ContentTypeKey := "video"];
            FindByDataAsWritten([audio], query) == [audio]
            && FindByDataIntended([audio], query) == []
  {
    var audio := Entry(map[ContentTypeKey := "audio"], server);
    var query := map[ContentTypeKey := "video"];
    assert !MatchesValues(audio, query) by {
      assert ContentTypeKey in query;
    }
    var r := FindByDataIntended([audio], query);
    assert multiset(r)[audio] == 0;
  }
}
