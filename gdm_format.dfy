/** The other direction of the reply parser: the text a media server sends,
    a status line followed by "Key: value" lines, each ended by CRLF. Parsing
    such a reply gives its headers back, and two concrete replies show an
    accepted and a dropped one. */
module GdmFormat {
  import opened Wrappers
  import opened PyStr
  import opened GdmReply
  import opened GdmScan

  /** The line "key: value". */
  function HeaderLine(h: (string, string)): string {
    h.0 + ": " + h.1
  }

  function HeaderLines(hs: seq<(string, string)>): (lines: seq<string>)
    ensures |lines| == |hs|
  {
    seq(|hs|, i requires 0 <= i < |hs| => HeaderLine(hs[i]))
  }

  /** A reply text: the status line and the header lines, each ended by CRLF. */
  function FormatReply(status: string, hs: seq<(string, string)>): string {
    JoinLines([status] + HeaderLines(hs), "\r\n")
  }

  /** The headers as a dict built in order: a repeated key keeps its last value. */
  function ToMap(hs: seq<(string, string)>): map<string, string> {
    if |hs| == 0 then map[] else ToMap(hs[..|hs| - 1])[hs[|hs| - 1].0 := hs[|hs| - 1].1]
  }

  /** A header the parser reads back unchanged: no colon and no line boundary
      in either part, and a value without surrounding whitespace. */
  predicate WellFormedHeader(h: (string, string)) {
    && NoLineBreak(h.0) && NoLineBreak(h.1)
    && ':' !in h.0 && ':' !in h.1
    && IsAscii(h.0) && IsAscii(h.1)
    && Strip(h.1) == h.1
  }

  /** A status line that accepts the reply and is not itself read as a header. */
  predicate WellFormedStatus(status: string) {
    NoLineBreak(status) && ':' !in status && IsAscii(status) && Contains(status, StatusMarker)
  }

  lemma StripAfterSpace(v: string)
    requires Strip(v) == v
    ensures Strip(" " + v) == v
  {
    assert " " + v == [' '] + v;
    LStripSpace(' ', v);
  }

  lemma LStripSpace(c: char, v: string)
    requires IsSpace(c)
    ensures LStrip([c] + v) == LStrip(v)
  {
    assert ([c] + v)[1..] == v;
  }

  lemma NoBreakConcat(a: string, b: string)
    requires NoLineBreak(a) && NoLineBreak(b)
    ensures NoLineBreak(a + b)
  {
    assert forall i :: |a| <= i < |a + b| ==> (a + b)[i] == b[i - |a|];
  }

  lemma AsciiConcat(a: string, b: string)
    requires IsAscii(a) && IsAscii(b)
    ensures IsAscii(a + b)
  {
    assert forall i :: |a| <= i < |a + b| ==> (a + b)[i] == b[i - |a|];
  }

  /** A key without a colon, a colon, then text without one: the line
      unpacks into that key and that text. */
  lemma KeyColonRest(k: string, rest: string)
    requires ':' !in k && ':' !in rest
    ensures IsHeaderLine(k + [':'] + rest) && multiset(k + [':'] + rest)[':'] == 1
    ensures KeyOf(k + [':'] + rest) == k && ValueOf(k + [':'] + rest) == rest
  {
    var line := k + [':'] + rest;
    assert multiset(line) == multiset(k) + multiset([':']) + multiset(rest);
    assert line[..|k|] == k && line[|k|] == ':';
    IndexOfFirst(line, k, ':');
    assert line[|k| + 1..] == rest;
  }

  lemma HeaderLineText(h: (string, string))
    requires WellFormedHeader(h)
    ensures NoLineBreak(HeaderLine(h)) && IsAscii(HeaderLine(h))
  {
    NoBreakConcat(h.0, ": ");
    NoBreakConcat(h.0 + ": ", h.1);
    AsciiConcat(h.0, ": ");
    AsciiConcat(h.0 + ": ", h.1);
  }

  lemma HeaderLineSplit(h: (string, string))
    requires WellFormedHeader(h)
    ensures IsHeaderLine(HeaderLine(h))
    ensures multiset(HeaderLine(h))[':'] == 1
    ensures KeyOf(HeaderLine(h)) == h.0 && ValueOf(HeaderLine(h)) == " " + h.1
  {
    assert HeaderLine(h) == h.0 + [':'] + (" " + h.1);
    assert ':' !in " " + h.1;
    KeyColonRest(h.0, " " + h.1);
  }

  /** One well-formed header line unpacks into its own key and value. */
  lemma HeaderLineParsed(h: (string, string))
    requires WellFormedHeader(h)
    ensures IsHeaderLine(HeaderLine(h)) && HeaderPair(HeaderLine(h)) == Success(h)
  {
    HeaderLineSplit(h);
    StripAfterSpace(h.1);
  }

  /** The comprehension over a formatted reply's lines gives the headers back. */
  lemma {:induction false} HeadersOfFormatted(status: string, hs: seq<(string, string)>)
    requires WellFormedStatus(status)
    requires forall i :: 0 <= i < |hs| ==> WellFormedHeader(hs[i])
    ensures Headers([status] + HeaderLines(hs)) == Success(ToMap(hs))
  {
    var lines := [status] + HeaderLines(hs);
    if |hs| == 0 {
      assert lines[..0] == [];
    } else {
      var n := |hs| - 1;
      assert lines[..|lines| - 1] == [status] + HeaderLines(hs[..n]);
      assert lines[|lines| - 1] == HeaderLine(hs[n]);
      HeadersOfFormatted(status, hs[..n]);
      HeaderLineParsed(hs[n]);
    }
  }

  /** Every line of a formatted reply is ASCII and free of line boundaries,
      so the text is ASCII and splits back into those lines. */
  lemma FormattedLines(status: string, hs: seq<(string, string)>)
    requires NoLineBreak(status) && IsAscii(status)
    requires forall i :: 0 <= i < |hs| ==> WellFormedHeader(hs[i])
    ensures IsAscii(FormatReply(status, hs))
    ensures SplitLines(FormatReply(status, hs)) == [status] + HeaderLines(hs)
  {
    var lines := [status] + HeaderLines(hs);
    forall i | 0 <= i < |lines| ensures NoLineBreak(lines[i]) && IsAscii(lines[i]) {
      if i > 0 { HeaderLineText(hs[i - 1]); }
    }
    AsciiJoinLines(lines, "\r\n");
    SplitJoinLines(lines, "\r\n");
  }

  /** Round trip: a formatted reply from well-formed parts is accepted, and
      its entry data is exactly the headers, the last value winning for a
      repeated key. */
  lemma ParseFormatted(status: string, hs: seq<(string, string)>)
    requires WellFormedStatus(status)
    requires forall i :: 0 <= i < |hs| ==> WellFormedHeader(hs[i])
    ensures IsAscii(FormatReply(status, hs))
    ensures ParseReply(EncodeAscii(FormatReply(status, hs))) == Success(Some(ToMap(hs)))
  {
    FormattedLines(status, hs);
    DecodeEncode(FormatReply(status, hs));
    HeadersOfFormatted(status, hs);
  }

  lemma AsciiJoinLines(ls: seq<string>, t: string)
    requires IsAscii(t) && forall i :: 0 <= i < |ls| ==> IsAscii(ls[i])
    ensures IsAscii(JoinLines(ls, t))
  {
    if |ls| > 0 {
      AsciiJoinLines(ls[1..], t);
      AsciiConcat(ls[0], t);
      AsciiConcat(ls[0] + t, JoinLines(ls[1..], t));
    }
  }

  /** What the loop makes of a batch of one reply. */
  lemma SingleReply(reply: Reply)
    ensures Collect(Outcomes([reply])) ==
              match ParseReply(reply.payload)
              case Failure(e) => ScanResult([], Some(e))
              case Success(None) => ScanResult([], None)
              case Success(Some(data)) => ScanResult([Entry(data, reply.server)], None)
  {
    var outs := Outcomes([reply]);
    assert outs == [OutcomeOf(reply)];
    CollectStep(outs);
    assert outs[..0] == [];
  }

  lemma StripKept(s: string)
    requires |s| > 0 && !IsSpace(s[0]) && !IsSpace(s[|s| - 1])
    ensures Strip(s) == s
  {
    assert LStrip(s) == s;
    assert RStrip(s) == s;
  }

  function Bedroom(): seq<(string, string)> {
    [("Name", "Bedroom"), ("Content_Type", "video")]
  }

  lemma OkStatus()
    ensures WellFormedStatus("HTTP/1.0 200 OK")
  {
    assert OccursAt("HTTP/1.0 200 OK", StatusMarker, 9);
  }

  lemma WellFormedOf(k: string, v: string)
    requires NoLineBreak(k) && IsAscii(k) && ':' !in k
    requires NoLineBreak(v) && IsAscii(v) && ':' !in v && Strip(v) == v
    ensures WellFormedHeader((k, v))
  {
  }

  lemma NameWord()
    ensures NoLineBreak("Name") && IsAscii("Name") && ':' !in "Name"
  {
  }

  lemma BedroomWord()
    ensures NoLineBreak("Bedroom") && IsAscii("Bedroom") && ':' !in "Bedroom"
  {
  }

  lemma NameHeader()
    ensures WellFormedHeader(("Name", "Bedroom"))
  {
    NameWord();
    BedroomWord();
    StripKept("Bedroom");
    WellFormedOf("Name", "Bedroom");
  }

  lemma ContentTypeWord()
    ensures NoLineBreak("Content_Type") && IsAscii("Content_Type") && ':' !in "Content_Type"
  {
  }

  lemma VideoWord()
    ensures NoLineBreak("video") && IsAscii("video") && ':' !in "video"
  {
  }

  lemma ContentTypeHeader()
    ensures WellFormedHeader(("Content_Type", "video"))
  {
    ContentTypeWord();
    VideoWord();
    StripKept("video");
    WellFormedOf("Content_Type", "video");
  }

  lemma BedroomWellFormed()
    ensures forall i :: 0 <= i < |Bedroom()| ==> WellFormedHeader(Bedroom()[i])
  {
    NameHeader();
    ContentTypeHeader();
    BothWellFormed(("Name", "Bedroom"), ("Content_Type", "video"));
  }

  lemma BothWellFormed(a: (string, string), b: (string, string))
    requires WellFormedHeader(a) && WellFormedHeader(b)
    ensures forall i :: 0 <= i < |[a, b]| ==> WellFormedHeader([a, b][i])
  {
  }

  lemma BedroomText()
    ensures FormatReply("HTTP/1.0 200 OK", Bedroom()) ==
              "HTTP/1.0 200 OK" + "\r\n" + "Name: Bedroom" + "\r\n" + "Content_Type: video" + "\r\n"
  {
    var status := "HTTP/1.0 200 OK";
    var hl := HeaderLines(Bedroom());
    assert hl[0] == HeaderLine(("Name", "Bedroom")) == "Name: Bedroom";
    assert hl[1] == HeaderLine(("Content_Type", "video")) == "Content_Type: video";
    assert hl == ["Name: Bedroom", "Content_Type: video"];
    var lines := [status] + hl;
    assert lines == ["HTTP/1.0 200 OK", "Name: Bedroom", "Content_Type: video"];
    assert lines[1..][1..][1..] == [];
    assert JoinLines(lines[1..][1..], "\r\n") == "Content_Type: video" + "\r\n";
    assert JoinLines(lines[1..], "\r\n") == "Name: Bedroom" + "\r\n" + ("Content_Type: video" + "\r\n");
  }

  /** "HTTP/1.0 200 OK\r\nName: Bedroom\r\nContent_Type: video\r\n" from
      10.0.0.5:32414 gives one entry, with both headers and that sender. */
  lemma BedroomReply(server: Address)
    ensures IsAscii(FormatReply("HTTP/1.0 200 OK", Bedroom()))
    ensures Collect(Outcomes([Reply(EncodeAscii(FormatReply("HTTP/1.0 200 OK", Bedroom())), server)])) ==
              ScanResult([Entry(map["Name" := "Bedroom", "Content_Type" := "video"], server)], None)
  {
    OkStatus();
    BedroomWellFormed();
    ParseFormatted("HTTP/1.0 200 OK", Bedroom());
    assert Bedroom()[..1][..0] == [];
    assert ToMap(Bedroom()) == map["Name" := "Bedroom", "Content_Type" := "video"];
    SingleReply(Reply(EncodeAscii(FormatReply("HTTP/1.0 200 OK", Bedroom())), server));
  }

  /** A status line without the digit 2 cannot hold "200 OK". */
  lemma NoTwoNoStatus(s: string)
    requires '2' !in s
    ensures !Contains(s, StatusMarker)
  {
    forall i ensures !OccursAt(s, StatusMarker, i) {
      if 0 <= i && i + |StatusMarker| <= |s| {
        assert s[i..i + |StatusMarker|][0] == s[i] != StatusMarker[0];
      }
    }
  }


  lemma NotFoundWords()
    ensures NoLineBreak("HTTP/1.0 404 Not Found") && IsAscii("HTTP/1.0 404 Not Found")
    ensures '2' !in "HTTP/1.0 404 Not Found"
  {
  }

  lemma NotFoundStatus()
    ensures NoLineBreak("HTTP/1.0 404 Not Found") && IsAscii("HTTP/1.0 404 Not Found")
    ensures !Contains("HTTP/1.0 404 Not Found", StatusMarker)
  {
    NotFoundWords();
    NoTwoNoStatus("HTTP/1.0 404 Not Found");
  }

  /** A "404 Not Found" reply gives no entry and no error, whatever headers
      follow it. */
  lemma NotFoundReply(server: Address, hs: seq<(string, string)>)
    requires forall i :: 0 <= i < |hs| ==> WellFormedHeader(hs[i])
    ensures IsAscii(FormatReply("HTTP/1.0 404 Not Found", hs))
    ensures Collect(Outcomes([Reply(EncodeAscii(FormatReply("HTTP/1.0 404 Not Found", hs)), server)])) == ScanResult([], None)
  {
    var status := "HTTP/1.0 404 Not Found";
    NotFoundStatus();
    FormattedLines(status, hs);
    var text := FormatReply(status, hs);
    DecodeEncode(text);
    SingleReply(Reply(EncodeAscii(text), server));
  }
}
