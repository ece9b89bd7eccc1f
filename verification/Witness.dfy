/**
 The text form of a witness: base64 in lines of 64 characters between two marker lines.
 */
module Witness {
  import opened EventLog
  import opened Sequences
  import Base64

  const BEGIN_MESSAGE: string := "-----BEGIN CREDB WITNESS MESSAGE-----"
  const END_MESSAGE: string := "-----END CREDB WITNESS MESSAGE-----"
  const PER_LINE: nat := 64

  // ----------------------------------------------------------------------- writing

  function Wrap(text: string): string {
    if text == "" then ""
    else if |text| <= PER_LINE then text + "\n"
    else text[..PER_LINE] + "\n" + Wrap(text[PER_LINE..])
  }

  function Armor(bytes: seq<Base64.Byte>): string {
    BEGIN_MESSAGE + "\n" + Wrap(Base64.Encode(bytes)) + END_MESSAGE + "\n"
  }

  // ----------------------------------------------------------------------- reading

  /** Length of the first line. */
  function LineLength(s: string): (n: nat)
    ensures n <= |s|
  {
    if s == "" || s[0] == '\n' then 0 else 1 + LineLength(s[1..])
  }

  /** `std::getline`: the first line and what follows it; nothing at the end of the input. */
  function GetLine(s: string): (r: Option<(string, string)>)
    ensures r.Some? ==> |r.value.1| < |s|
  {
    if s == "" then None
    else
      var n := LineLength(s);
      Some((s[..n], if n < |s| then s[n + 1..] else ""))
  }

  function Join(line: string, more: Option<string>): Option<string> {
    if more.Some? then Some(line + more.value) else None
  }

  /** The lines up to the end marker, joined; an error if it never comes. */
  function ReadBody(marker: string, s: string): Option<string>
    decreases |s|
  {
    match GetLine(s)
    case None => None
    case Some((line, rest)) => if line == marker then Some("") else Join(line, ReadBody(marker, rest))
  }

  /** What stands between a first line and a marker line, joined and decoded. */
  function ReadBetween(first: string, marker: string, s: string): Option<seq<Base64.Byte>> {
    match GetLine(s)
    case None => None
    case Some((line, rest)) =>
      if line != first then None
      else
        match ReadBody(marker, rest)
        case None => None
        case Some(text) => Base64.Decode(text)
  }

  function Read(s: string): Option<seq<Base64.Byte>> {
    ReadBetween(BEGIN_MESSAGE, END_MESSAGE, s)
  }

  // -------------------------------------------------------------------- round trip

  predicate OneLine(s: string) {
    forall i | 0 <= i < |s| :: s[i] != '\n'
  }

  lemma {:induction false} LineEnds(line: string, rest: string)
    requires OneLine(line)
    ensures LineLength(line + "\n" + rest) == |line|
  {
    var s := line + "\n" + rest;
    if line != "" {
      assert OneLine(line[1..]) && s[1..] == line[1..] + "\n" + rest;
      LineEnds(line[1..], rest);
    }
  }

  lemma GetsLine(line: string, rest: string)
    requires OneLine(line)
    ensures GetLine(line + "\n" + rest) == Some((line, rest))
  {
    LineEnds(line, rest);
    var s := line + "\n" + rest;
    assert s[..|line|] == line && s[|line| + 1..] == rest;
  }

  /** Text whose lines cannot be mistaken for a marker. */
  predicate Plain(s: string) {
    forall i | 0 <= i < |s| :: s[i] != '\n' && s[i] != '-'
  }

  predicate Marker(s: string) {
    OneLine(s) && s != "" && s[0] == '-'
  }

  lemma PlainLine(marker: string, line: string, rest: string)
    requires Marker(marker) && Plain(line) && line != ""
    ensures ReadBody(marker, line + "\n" + rest) == Join(line, ReadBody(marker, rest))
  {
    GetsLine(line, rest);
  }

  /** Reading joins again what wrapping broke into lines. */
  lemma {:induction false} WrapReads(marker: string, text: string, rest: string)
    requires Marker(marker) && Plain(text)
    ensures ReadBody(marker, Wrap(text) + (marker + "\n" + rest)) == Some(text)
    decreases |text|
  {
    var end := marker + "\n" + rest;
    GetsLine(marker, rest);
    if text == "" {
      assert Wrap(text) + end == end;
    } else if |text| <= PER_LINE {
      PlainLine(marker, text, end);
      assert text + "" == text;
    } else {
      var line, more := text[..PER_LINE], text[PER_LINE..];
      WrapReads(marker, more, rest);
      PlainLine(marker, line, Wrap(more) + end);
      Regroup(line + "\n", Wrap(more), end);
      assert text == line + more;
    }
  }

  lemma EncodedIsPlain(bytes: seq<Base64.Byte>)
    ensures Plain(Base64.Encode(bytes))
  {
    Base64.TextRoundTrip(Base64.Sextets(bytes));
  }

  /** Reading undoes armouring exactly for payloads of three bytes or more. */
  lemma ArmorRoundTripIff(bytes: seq<Base64.Byte>)
    ensures Read(Armor(bytes)) == if |bytes| >= 3 then Some(bytes) else None
  {
    var text := Base64.Encode(bytes);
    var body := Wrap(text) + (END_MESSAGE + "\n" + "");
    EncodedIsPlain(bytes);
    assert Armor(bytes) == BEGIN_MESSAGE + "\n" + body;
    GetsLine(BEGIN_MESSAGE, body);
    WrapReads(END_MESSAGE, text, "");
    Base64.RoundTripIff(bytes);
  }

  // --------------------------------------------------------------- exactly what is read

  /** Lines, each with a line break, and without. */
  function Broken(lines: seq<string>): string {
    if lines == [] then "" else lines[0] + "\n" + Broken(lines[1..])
  }

  function Joined(lines: seq<string>): string {
    if lines == [] then "" else lines[0] + Joined(lines[1..])
  }

  /** No line is broken further, and none is the marker. */
  ghost predicate Lines(lines: seq<string>, marker: string) {
    forall i | 0 <= i < |lines| :: OneLine(lines[i]) && lines[i] != marker
  }

  /** The end of the input, or of a line. */
  predicate Ends(tail: string) {
    tail == "" || tail[0] == '\n'
  }

  lemma {:induction false} LineIs(s: string)
    requires s != ""
    ensures var n := LineLength(s); OneLine(s[..n]) && (n < |s| ==> s[n] == '\n')
  {
    if s[0] != '\n' && |s| > 1 {
      LineIs(s[1..]);
      var n := LineLength(s);
      assert forall i | 0 < i < n :: s[i] == s[1..][..n - 1][i - 1];
    }
  }

  lemma {:induction false} LastLine(line: string, tail: string)
    requires OneLine(line) && line != "" && Ends(tail)
    ensures LineLength(line + tail) == |line|
    ensures GetLine(line + tail).Some? && GetLine(line + tail).value.0 == line
  {
    var s := line + tail;
    if |line| > 1 {
      assert s[1..] == line[1..] + tail && OneLine(line[1..]);
      LastLine(line[1..], tail);
    } else {
      assert s[1..] == tail;
    }
    assert s[..|line|] == line;
  }

  /** The body that is read is the lines before the marker, joined. */
  lemma {:induction false} BodyIsRead(marker: string, lines: seq<string>, tail: string)
    requires Marker(marker) && Lines(lines, marker) && Ends(tail)
    ensures ReadBody(marker, Broken(lines) + (marker + tail)) == Some(Joined(lines))
    decreases |lines|
  {
    if lines == [] {
      assert Broken(lines) + (marker + tail) == marker + tail;
      LastLine(marker, tail);
    } else {
      var rest := Broken(lines[1..]) + (marker + tail);
      assert Broken(lines) + (marker + tail) == lines[0] + "\n" + rest;
      GetsLine(lines[0], rest);
      assert Lines(lines[1..], marker);
      BodyIsRead(marker, lines[1..], tail);
    }
  }

  /** The first line, and what is left of the input. */
  lemma {:induction false} FirstLine(s: string) returns (line: string, rest: string, tail: string)
    requires s != ""
    ensures GetLine(s) == Some((line, rest)) && OneLine(line)
    ensures s == line + tail && Ends(tail) && (tail != "" ==> tail == "\n" + rest) && (tail == "" ==> rest == "")
  {
    var n := LineLength(s);
    LineIs(s);
    line, tail, rest := s[..n], s[n..], if n < |s| then s[n + 1..] else "";
    if n < |s| { assert tail == [s[n]] + rest; }
  }

  lemma BrokenCons(line: string, more: seq<string>, end: string)
    ensures Broken([line] + more) + end == line + ("\n" + (Broken(more) + end)) && Joined([line] + more) == line + Joined(more)
  {
    assert ([line] + more)[1..] == more;
    assert line + "\n" + Broken(more) + end == line + ("\n" + (Broken(more) + end));
  }

  lemma {:induction false} ReadIsBody(marker: string, s: string) returns (lines: seq<string>, tail: string)
    requires Marker(marker) && ReadBody(marker, s).Some?
    ensures Lines(lines, marker) && Ends(tail) && s == Broken(lines) + (marker + tail) && ReadBody(marker, s) == Some(Joined(lines))
    decreases |s|
  {
    var line, rest, after := FirstLine(s);
    if line == marker {
      lines, tail := [], after;
      assert Broken(lines) + (marker + tail) == marker + tail;
    } else {
      var more;
      more, tail := ReadIsBody(marker, rest);
      lines := [line] + more;
      BrokenCons(line, more, marker + tail);
    }
  }

  /** A first line, lines, a marker line, and anything after it. */
  ghost predicate IsForm(first: string, marker: string, s: string, lines: seq<string>, tail: string) {
    Lines(lines, marker) && Ends(tail) && s == first + ("\n" + (Broken(lines) + (marker + tail)))
  }

  lemma FormIsRead(first: string, marker: string, s: string, lines: seq<string>, tail: string)
    requires OneLine(first) && Marker(marker) && IsForm(first, marker, s, lines, tail)
    ensures ReadBetween(first, marker, s) == Base64.Decode(Joined(lines))
  {
    var rest := Broken(lines) + (marker + tail);
    assert s == first + "\n" + rest by { Regroup(first, "\n", rest); }
    GetsLine(first, rest);
    BodyIsRead(marker, lines, tail);
  }

  lemma ReadIsForm(first: string, marker: string, s: string) returns (lines: seq<string>, tail: string)
    requires Marker(marker) && ReadBetween(first, marker, s).Some?
    ensures IsForm(first, marker, s, lines, tail) && ReadBetween(first, marker, s) == Base64.Decode(Joined(lines))
  {
    var line, rest, after := FirstLine(s);
    lines, tail := ReadIsBody(marker, rest);
  }

  /** Reading succeeds exactly on that form with lines that decode, and gives what they decode to. */
  lemma ReadIff(first: string, marker: string, s: string, bytes: seq<Base64.Byte>)
    requires OneLine(first) && Marker(marker)
    ensures ReadBetween(first, marker, s) == Some(bytes) <==>
            exists lines, tail :: IsForm(first, marker, s, lines, tail) && Base64.Decode(Joined(lines)) == Some(bytes)
  {
    if ReadBetween(first, marker, s) == Some(bytes) {
      var lines, tail := ReadIsForm(first, marker, s);
      assert IsForm(first, marker, s, lines, tail);
    }
    if lines, tail :| IsForm(first, marker, s, lines, tail) && Base64.Decode(Joined(lines)) == Some(bytes) {
      FormIsRead(first, marker, s, lines, tail);
    }
  }

  // ------------------------------------------------------------------- the lines, written out

  /** Lines of 64 characters, the last one what is left, each with a line break. */
  ghost predicate InLines(text: string, s: string) {
    && |s| == |text| + (|text| + 63) / 64
    && forall k | 0 <= k < |s| :: LineCharAt(text, s[k], k, |s|)
  }

  ghost predicate LineCharAt(text: string, c: char, k: nat, n: nat) {
    if k % 65 == 64 || k == n - 1 then c == '\n' else k - k / 65 < |text| && c == text[k - k / 65]
  }

  lemma {:induction false} WrapIs(text: string)
    ensures InLines(text, Wrap(text))
    decreases |text|
  {
    var s := Wrap(text);
    if |text| > PER_LINE {
      var more := text[PER_LINE..];
      var w := Wrap(more);
      WrapIs(more);
      forall k | 0 <= k < |s| ensures LineCharAt(text, s[k], k, |s|) {
        if k >= 65 {
          assert s[k] == w[k - 65] && LineCharAt(more, w[k - 65], k - 65, |w|);
          LinesOf(k);
        }
      }
    }
  }

  lemma LinesOf(k: nat)
    requires k >= 65
    ensures k / 65 == (k - 65) / 65 + 1 && k % 65 == (k - 65) % 65
  {
  }

  // ------------------------------------------------------------------------- the loops

  lemma WrapLine(text: string, pos: nat)
    requires pos + PER_LINE < |text|
    ensures Wrap(text[pos..]) == text[pos..pos + PER_LINE] + "\n" + Wrap(text[pos + PER_LINE..])
  {
    assert text[pos..][..PER_LINE] == text[pos..pos + PER_LINE];
    assert text[pos..][PER_LINE..] == text[pos + PER_LINE..];
  }

  /** The line loop of `Witness::armor`. */
  method WrapText(text: string) returns (s: string)
    ensures s == Wrap(text) && InLines(text, s)
  {
    WrapIs(text);
    s := "";
    var pos := 0;
    assert text[0..] == text && s + Wrap(text) == Wrap(text);
    while pos + PER_LINE < |text|
      invariant pos <= |text|
      invariant s + Wrap(text[pos..]) == Wrap(text)
    {
      WrapLine(text, pos);
      var line := text[pos..pos + PER_LINE] + "\n";
      Regroup(s, line, Wrap(text[pos + PER_LINE..]));
      s, pos := s + line, pos + PER_LINE;
    }
    if pos < |text| {
      s := s + (text[pos..] + "\n");
    }
  }

  /** `Witness::armor`. */
  method ArmorBytes(bytes: seq<Base64.Byte>) returns (s: string)
    ensures s == Armor(bytes)
    ensures exists text, lines :: Base64.EncodedAs(bytes, text) && InLines(text, lines) &&
              s == "-----BEGIN CREDB WITNESS MESSAGE-----\n" + lines + "-----END CREDB WITNESS MESSAGE-----\n"
  {
    var base64 := Base64.EncodeBytes(bytes);
    var lines := WrapText(base64);
    s := BEGIN_MESSAGE + "\n" + lines + END_MESSAGE + "\n";
    assert BEGIN_MESSAGE + "\n" == "-----BEGIN CREDB WITNESS MESSAGE-----\n" && END_MESSAGE + "\n" == "-----END CREDB WITNESS MESSAGE-----\n";
    Regroup(BEGIN_MESSAGE + "\n" + lines, END_MESSAGE, "\n");
  }

  /** The line loop of the reader. */
  method ReadLines(marker: string, s: string) returns (r: Option<string>)
    ensures r == ReadBody(marker, s)
  {
    var text, rest := "", s;
    if ReadBody(marker, s).Some? { assert text + ReadBody(marker, s).value == ReadBody(marker, s).value; }
    while true
      invariant Join(text, ReadBody(marker, rest)) == ReadBody(marker, s)
      decreases |rest|
    {
      var next := GetLine(rest);
      if next.None? {
        return None;
      }
      var line := next.value.0;
      if line == marker {
        assert text + "" == text;
        return Some(text);
      }
      rest := next.value.1;
      if ReadBody(marker, rest).Some? { Regroup(text, line, ReadBody(marker, rest).value); }
      text := text + line;
    }
  }

  lemma ReadMeans(first: string, marker: string, s: string, r: Option<seq<Base64.Byte>>)
    requires OneLine(first) && Marker(marker) && r == ReadBetween(first, marker, s)
    ensures r.Some? ==> exists lines, tail :: IsForm(first, marker, s, lines, tail) && Base64.DecodedAs(Joined(lines), r)
    ensures r.None? ==> forall lines, tail | IsForm(first, marker, s, lines, tail) :: Base64.DecodedAs(Joined(lines), None)
  {
    if r.Some? {
      var lines, tail := ReadIsForm(first, marker, s);
      Base64.DecodeIs(Joined(lines));
    } else {
      forall lines, tail | IsForm(first, marker, s, lines, tail) ensures Base64.DecodedAs(Joined(lines), None) {
        FormIsRead(first, marker, s, lines, tail);
        Base64.DecodeIs(Joined(lines));
      }
    }
  }

  /** The reader of the text form, which fails on a missing marker or a payload that does not decode. */
  method ReadText(s: string) returns (r: Option<seq<Base64.Byte>>)
    ensures r == Read(s)
    ensures r.Some? ==> exists lines, tail :: IsForm(BEGIN_MESSAGE, END_MESSAGE, s, lines, tail) && Base64.DecodedAs(Joined(lines), r)
    ensures r.None? ==> forall lines, tail | IsForm(BEGIN_MESSAGE, END_MESSAGE, s, lines, tail) :: Base64.DecodedAs(Joined(lines), None)
  {
    ReadMeans(BEGIN_MESSAGE, END_MESSAGE, s, Read(s));
    var next := GetLine(s);
    if next.None? || next.value.0 != BEGIN_MESSAGE {
      return None;
    }
    var text := ReadLines(END_MESSAGE, next.value.1);
    if text.None? {
      return None;
    }
    r := Base64.DecodeText(text.value);
  }
}
