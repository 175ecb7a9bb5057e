/** One GDM reply and what `GDM.update` makes of it (netdisco/gdm.py:76-83):
    the datagram is decoded as ASCII, its first line must contain "200 OK",
    and every line holding a colon becomes one header of the entry. */
module GdmReply {
  import opened Wrappers
  import opened PyStr

  /** The (host, port) pair that recvfrom reports as the sender. */
  datatype Address = Address(host: string, port: int)

  /** What one recvfrom call returned: the datagram and its sender. */
  datatype Reply = Reply(payload: seq<byte>, server: Address)

  /** One discovered server, the dict {'data': headers, 'from': server}. */
  datatype Entry = Entry(data: map<string, string>, from: Address)

  /** The exceptions that escape `update` and the accessors. */
  datatype Error =
    | UnicodeDecodeError(position: nat)  // data.decode('ascii'), at the first byte above 127
    | IndexError                         // splitlines()[0] of a reply with no lines
    | ValueError(pieces: nat)            // unpacking line.split(':') into (k, v)
    | KeyError(key: string)              // entry['data']['Content_Type'] on an entry without it

  const StatusMarker: string := "200 OK"

  /** A line the comprehension keeps: `':' in line`. */
  predicate IsHeaderLine(line: string) {
    ':' in line
  }

  /** The text before the first colon, kept as written (not stripped). */
  function KeyOf(line: string): string {
    line[..IndexOf(line, ':')]
  }

  /** The text after the first colon, before stripping. */
  function ValueOf(line: string): string
    requires IsHeaderLine(line)
  {
    line[IndexOf(line, ':') + 1..]
  }

  /** `(k, v) = line.split(':')` and then `v.strip()`: the unpack succeeds only
      when the line holds exactly one colon, and then the key is the text
      before it and the value the stripped text after it. */
  function HeaderPair(line: string): (r: Result<(string, string), Error>)
    requires IsHeaderLine(line)
    ensures r.Success? <==> multiset(line)[':'] == 1
    ensures r.Success? ==> r.value == (KeyOf(line), Strip(ValueOf(line)))
    ensures r.Failure? ==> r.error == ValueError(multiset(line)[':'] + 1)
  {
    var parts := Split(line, ':');
    if |parts| != 2 then Failure(ValueError(|parts|))
    else
      SplitOnce(line, ':');
      Success((parts[0], Strip(parts[1])))
  }

  /** The dict comprehension over the given lines, in order: lines without a
      colon are skipped, a later line with the same key overwrites an earlier
      one, and the first line that does not unpack raises. */
  function Headers(lines: seq<string>): Result<map<string, string>, Error> {
    if |lines| == 0 then Success(map[])
    else match Headers(lines[..|lines| - 1])
      case Failure(e) => Failure(e)
      case Success(m) =>
        var line := lines[|lines| - 1];
        if !IsHeaderLine(line) then Success(m)
        else match HeaderPair(line)
          case Failure(e) => Failure(e)
          case Success((k, v)) => Success(m[k := v])
  }

  /** A header line that makes the (k, v) unpack fail. */
  predicate BadHeaderLine(line: string) {
    IsHeaderLine(line) && multiset(line)[':'] != 1
  }

  /** Some header line of lines makes the unpack fail. */
  predicate HasBadLine(lines: seq<string>) {
    exists i :: 0 <= i < |lines| && BadHeaderLine(lines[i])
  }

  /** lines[i] is a header line with key k. */
  predicate HasKeyAt(lines: seq<string>, i: int, k: string) {
    0 <= i < |lines| && IsHeaderLine(lines[i]) && KeyOf(lines[i]) == k
  }

  /** No header line after lines[i] has the same key. */
  predicate LastWithKey(lines: seq<string>, i: int)
    requires 0 <= i < |lines|
  {
    forall j :: i < j < |lines| ==> !HasKeyAt(lines, j, KeyOf(lines[i]))
  }

  /** The first line that fails the unpack is lines[i]. */
  predicate FirstBadAt(lines: seq<string>, i: int) {
    0 <= i < |lines| && BadHeaderLine(lines[i])
    && forall j :: 0 <= j < i ==> !BadHeaderLine(lines[j])
  }

  /** The comprehension raises exactly when some header line holds two or more
      colons, and then with the ValueError of the first such line. */
  lemma {:induction false} HeadersFailure(lines: seq<string>)
    ensures Headers(lines).Failure? <==> HasBadLine(lines)
    ensures Headers(lines).Failure? ==>
              exists i :: FirstBadAt(lines, i) && Headers(lines).error == ValueError(multiset(lines[i])[':'] + 1)
  {
    if |lines| > 0 {
      var n := |lines| - 1;
      var init := lines[..n];
      HeadersFailure(init);
      assert forall i :: 0 <= i < n ==> init[i] == lines[i];
      if Headers(init).Failure? {
        var i :| FirstBadAt(init, i) && Headers(init).error == ValueError(multiset(init[i])[':'] + 1);
        assert FirstBadAt(lines, i);
      } else if BadHeaderLine(lines[n]) {
        assert FirstBadAt(lines, n);
      } else {
        assert forall i :: 0 <= i < |lines| ==> !BadHeaderLine(lines[i]) by {
          forall i | 0 <= i < |lines| ensures !BadHeaderLine(lines[i]) {
            if i < n { assert init[i] == lines[i]; }
          }
        }
      }
    }
  }

  /** The last step of a comprehension that succeeds: the earlier lines
      succeed too, and the last line, if it has a colon, sets its key. */
  lemma HeadersStep(lines: seq<string>)
    requires |lines| > 0 && Headers(lines).Success?
    ensures Headers(lines[..|lines| - 1]).Success?
    ensures var line, m0 := lines[|lines| - 1], Headers(lines[..|lines| - 1]).value;
            Headers(lines).value == if IsHeaderLine(line) then m0[KeyOf(line) := Strip(ValueOf(line))] else m0
  {
  }

  /** When the comprehension succeeds, its keys are exactly the keys of the
      header lines. */
  lemma {:induction false} HeadersKeys(lines: seq<string>, m: map<string, string>)
    requires Headers(lines) == Success(m)
    ensures forall k :: k in m <==> exists i :: HasKeyAt(lines, i, k)
  {
    forall k ensures k in m ==> exists i :: HasKeyAt(lines, i, k) {
      if k in m {
        HeadersKeyFrom(lines, m, k);
      }
    }
    forall k, i | HasKeyAt(lines, i, k) ensures k in m {
      HeadersKeyTo(lines, m, i, k);
    }
  }

  /** Every key of the map comes from some header line. */
  lemma {:induction false} HeadersKeyFrom(lines: seq<string>, m: map<string, string>, k: string)
    requires Headers(lines) == Success(m) && k in m
    ensures exists i :: HasKeyAt(lines, i, k)
  {
    var n := |lines| - 1;
    var init := lines[..n];
    HeadersStep(lines);
    var m0 := Headers(init).value;
    var line := lines[n];
    if IsHeaderLine(line) && k == KeyOf(line) {
      assert HasKeyAt(lines, n, k);
    } else {
      assert k in m0;
      HeadersKeyFrom(init, m0, k);
      var i :| HasKeyAt(init, i, k);
      assert init[i] == lines[i];
      assert HasKeyAt(lines, i, k);
    }
  }

  /** Every header line's key is in the map. */
  lemma {:induction false} HeadersKeyTo(lines: seq<string>, m: map<string, string>, i: int, k: string)
    requires Headers(lines) == Success(m) && HasKeyAt(lines, i, k)
    ensures k in m
  {
    var n := |lines| - 1;
    var init := lines[..n];
    HeadersStep(lines);
    var m0 := Headers(init).value;
    if i < n {
      assert init[i] == lines[i];
      HeadersKeyTo(init, m0, i, k);
    }
  }

  /** When the comprehension succeeds, a header line that no later line
      overrides gives its key the stripped text after the colon. */
  lemma {:induction false} HeadersLastWinsAt(lines: seq<string>, i: nat)
    requires Headers(lines).Success?
    requires i < |lines| && IsHeaderLine(lines[i]) && LastWithKey(lines, i)
    ensures KeyOf(lines[i]) in Headers(lines).value
    ensures Headers(lines).value[KeyOf(lines[i])] == Strip(ValueOf(lines[i]))
  {
    var n := |lines| - 1;
    var init := lines[..n];
    HeadersStep(lines);
    if i < n {
      LastWithKeyInit(lines, i);
      HeadersLastWinsAt(init, i);
      StepKeeps(Headers(init).value, Headers(lines).value, lines[n], KeyOf(lines[i]));
    }
  }

  /** A line that is last with its key in lines is so in lines without the
      last line, and the last line does not have that key. */
  lemma LastWithKeyInit(lines: seq<string>, i: nat)
    requires i < |lines| - 1 && IsHeaderLine(lines[i]) && LastWithKey(lines, i)
    ensures var init := lines[..|lines| - 1];
            init[i] == lines[i] && LastWithKey(init, i)
    ensures !HasKeyAt(lines, |lines| - 1, KeyOf(lines[i]))
  {
    var n := |lines| - 1;
    var init := lines[..n];
    var k := KeyOf(lines[i]);
    assert !HasKeyAt(lines, n, k);
    forall j | i < j < n ensures !HasKeyAt(init, j, k) {
      assert init[j] == lines[j];
      assert !HasKeyAt(lines, j, k);
    }
  }

  /** A step of the comprehension whose line does not have key k leaves k's
      entry as it was. */
  lemma StepKeeps(m0: map<string, string>, m: map<string, string>, line: string, k: string)
    requires m == if IsHeaderLine(line) then m0[KeyOf(line) := Strip(ValueOf(line))] else m0
    requires k in m0 && !(IsHeaderLine(line) && KeyOf(line) == k)
    ensures k in m && m[k] == m0[k]
  {
  }

  /** When the comprehension succeeds, each key holds the stripped value of
      the last line that has it: a repeated key keeps its last value. */
  lemma HeadersLastWins(lines: seq<string>, m: map<string, string>)
    requires Headers(lines) == Success(m)
    ensures forall i :: 0 <= i < |lines| && IsHeaderLine(lines[i]) && LastWithKey(lines, i) ==>
              KeyOf(lines[i]) in m && m[KeyOf(lines[i])] == Strip(ValueOf(lines[i]))
  {
    forall i | 0 <= i < |lines| && IsHeaderLine(lines[i]) && LastWithKey(lines, i)
      ensures KeyOf(lines[i]) in m && m[KeyOf(lines[i])] == Strip(ValueOf(lines[i]))
    {
      HeadersLastWinsAt(lines, i);
    }
  }

  /** What update does with one received datagram: Success(Some(headers)) for
      a reply it appends, Success(None) for one whose first line lacks
      "200 OK", and Failure for the exceptions that abort the scan. */
  function ParseReply(payload: seq<byte>): Result<Option<map<string, string>>, Error> {
    match DecodeAscii(payload)
    case Failure(p) => Failure(UnicodeDecodeError(p))
    case Success(text) => ParseText(text)
  }

  /** The rest of the parse, once the datagram has been decoded. */
  function ParseText(text: string): Result<Option<map<string, string>>, Error> {
    ParseLines(SplitLines(text))
  }

  /** The decoded reply's lines: the first must exist and contain "200 OK",
      and then all of the lines, that one included, go through the
      comprehension. */
  function ParseLines(lines: seq<string>): Result<Option<map<string, string>>, Error> {
    if |lines| == 0 then Failure(IndexError)
    else if !Contains(lines[0], StatusMarker) then Success(None)
    else match Headers(lines)
      case Failure(e) => Failure(e)
      case Success(m) => Success(Some(m))
  }

  /** The first line of a decoded reply: everything up to the first line
      boundary. */
  function FirstLine(text: string): string {
    text[..LineEnd(text)]
  }

  /** A reply whose first line lacks "200 OK" is dropped, whatever its other
      lines hold (even lines that would make the unpack fail). */
  lemma NoStatusDropped(payload: seq<byte>, text: string)
    requires DecodeAscii(payload) == Success(text) && |text| > 0
    requires !Contains(FirstLine(text), StatusMarker)
    ensures ParseReply(payload) == Success(None)
  {
  }

  /** Only an empty text has no first line. */
  lemma TextIndexError(text: string)
    ensures ParseText(text) == Failure(IndexError) <==> |text| == 0
  {
    LinesErrors(SplitLines(text));
  }

  /** A reply with no lines at all (an empty datagram) raises IndexError. */
  lemma ParseReplyIndexError(payload: seq<byte>)
    ensures ParseReply(payload) == Failure(IndexError) <==> |payload| == 0
  {
    if DecodeAscii(payload).Success? {
      TextIndexError(DecodeAscii(payload).value);
    }
  }

  /** Once decoded, the parse raises IndexError for no lines and otherwise
      nothing but ValueError. */
  lemma LinesErrors(lines: seq<string>)
    ensures ParseLines(lines) == Failure(IndexError) <==> |lines| == 0
    ensures ParseLines(lines).Failure? ==> ParseLines(lines).error.IndexError? || ParseLines(lines).error.ValueError?
  {
    if |lines| > 0 && Contains(lines[0], StatusMarker) {
      HeadersFailure(lines);
    }
  }

  /** A byte above 127 anywhere in the datagram raises UnicodeDecodeError. */
  lemma ParseReplyDecodeError(payload: seq<byte>)
    ensures (ParseReply(payload).Failure? && ParseReply(payload).error.UnicodeDecodeError?)
              <==> exists i :: 0 <= i < |payload| && payload[i] >= 128
  {
    if DecodeAscii(payload).Success? {
      LinesErrors(SplitLines(DecodeAscii(payload).value));
    }
  }

  /** The lines raise ValueError exactly when the first holds "200 OK" and
      some line has two or more colons. */
  lemma LinesValueError(lines: seq<string>)
    ensures (ParseLines(lines).Failure? && ParseLines(lines).error.ValueError?)
              <==> (|lines| > 0 && Contains(lines[0], StatusMarker) && HasBadLine(lines))
  {
    if |lines| > 0 && Contains(lines[0], StatusMarker) {
      HeadersFailure(lines);
    }
  }

  /** A reply with "200 OK" in its first line raises ValueError exactly when
      one of its lines holds two or more colons; a dropped reply never does. */
  lemma ParseReplyValueError(payload: seq<byte>, text: string)
    requires DecodeAscii(payload) == Success(text)
    ensures (ParseReply(payload).Failure? && ParseReply(payload).error.ValueError?)
              <==> (|text| > 0 && Contains(FirstLine(text), StatusMarker) && HasBadLine(SplitLines(text)))
  {
    assert ParseReply(payload) == ParseText(text);
    TextValueError(text);
  }

  /** The decoded text raises ValueError exactly when its first line holds
      "200 OK" and some line has two or more colons. */
  lemma TextValueError(text: string)
    ensures (ParseText(text).Failure? && ParseText(text).error.ValueError?)
              <==> (|text| > 0 && Contains(FirstLine(text), StatusMarker) && HasBadLine(SplitLines(text)))
  {
    var lines := SplitLines(text);
    LinesValueError(lines);
    if |text| > 0 {
      assert lines[0] == FirstLine(text);
    }
  }

  /** The lines are accepted exactly when the first holds "200 OK" and no
      line has two or more colons, and then with the comprehension's map. */
  lemma LinesAccepted(lines: seq<string>)
    ensures (ParseLines(lines).Success? && ParseLines(lines).value.Some?) <==>
              (|lines| > 0 && Contains(lines[0], StatusMarker) && !HasBadLine(lines))
    ensures ParseLines(lines).Success? && ParseLines(lines).value.Some? ==>
              Headers(lines) == Success(ParseLines(lines).value.value)
  {
    if |lines| > 0 && Contains(lines[0], StatusMarker) {
      HeadersFailure(lines);
    }
  }

  /** m is the map the comprehension describes for lines: its keys are the
      keys of the header lines, each with the stripped value of the last
      line that has it. */
  ghost predicate Describes(lines: seq<string>, m: map<string, string>) {
    && (forall k :: k in m <==> exists i :: HasKeyAt(lines, i, k))
    && (forall i :: 0 <= i < |lines| && IsHeaderLine(lines[i]) && LastWithKey(lines, i) ==>
          KeyOf(lines[i]) in m && m[KeyOf(lines[i])] == Strip(ValueOf(lines[i])))
  }

  /** Every key of the header lines has a last line. */
  lemma {:induction false} LastKeyExists(lines: seq<string>, i: int, k: string)
    requires HasKeyAt(lines, i, k)
    ensures exists j :: HasKeyAt(lines, j, k) && LastWithKey(lines, j)
    decreases |lines| - i
  {
    if !LastWithKey(lines, i) {
      var j :| i < j < |lines| && HasKeyAt(lines, j, KeyOf(lines[i]));
      LastKeyExists(lines, j, k);
    }
  }

  /** Where a described map takes a key's value from: the last line with
      that key. */
  lemma DescribedValue(lines: seq<string>, m: map<string, string>, k: string)
    requires Describes(lines, m) && k in m
    ensures exists j :: HasKeyAt(lines, j, k) && LastWithKey(lines, j) && m[k] == Strip(ValueOf(lines[j]))
  {
    var i :| HasKeyAt(lines, i, k);
    LastKeyExists(lines, i, k);
    var j :| HasKeyAt(lines, j, k) && LastWithKey(lines, j);
    assert KeyOf(lines[j]) == k;
  }

  /** At most one map fits that description. */
  lemma DescribesUnique(lines: seq<string>, m1: map<string, string>, m2: map<string, string>)
    requires Describes(lines, m1) && Describes(lines, m2)
    ensures m1 == m2
  {
    forall k | k in m1 ensures k in m2 && m1[k] == m2[k] {
      DescribedValue(lines, m1, k);
      var j :| HasKeyAt(lines, j, k) && LastWithKey(lines, j) && m1[k] == Strip(ValueOf(lines[j]));
      assert KeyOf(lines[j]) == k;
    }
    assert m1.Keys == m2.Keys;
  }

  /** The lines are accepted with headers m exactly when the first holds
      "200 OK", no line has two or more colons, and m is the described map. */
  lemma LinesAcceptedWith(lines: seq<string>, m: map<string, string>)
    ensures ParseLines(lines) == Success(Some(m)) <==>
              (|lines| > 0 && Contains(lines[0], StatusMarker) && !HasBadLine(lines) && Describes(lines, m))
  {
    LinesAccepted(lines);
    if ParseLines(lines).Success? && ParseLines(lines).value.Some? {
      var m0 := ParseLines(lines).value.value;
      HeadersKeys(lines, m0);
      HeadersLastWins(lines, m0);
      assert Describes(lines, m0);
      if Describes(lines, m) {
        DescribesUnique(lines, m, m0);
      }
    }
  }

  /** A reply is appended with headers m exactly when it decodes, is not
      empty, has "200 OK" in its first line and no line with two or more
      colons, and m has the keys of its colon lines, the status line
      included, each with the stripped value of the last line that has it. */
  lemma ParseReplyAccepted(payload: seq<byte>, m: map<string, string>)
    ensures ParseReply(payload) == Success(Some(m)) <==>
              (DecodeAscii(payload).Success? &&
               var text := DecodeAscii(payload).value;
               && |text| > 0 && Contains(FirstLine(text), StatusMarker)
               && !HasBadLine(SplitLines(text)) && Describes(SplitLines(text), m))
  {
    if DecodeAscii(payload).Success? {
      var text := DecodeAscii(payload).value;
      var lines := SplitLines(text);
      assert ParseReply(payload) == ParseLines(lines);
      LinesAcceptedWith(lines, m);
      if |text| > 0 {
        assert lines[0] == FirstLine(text);
      }
    }
  }
}
