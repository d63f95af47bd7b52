/** What aws-chunked framing promises: exactly the well-formed frames can be read, each from its
    printed form, and a cut before the end of the last header is always noticed. */
module ChunkLaws {
  import opened Options
  import opened Texts
  import opened Chunks

  // ---------------------------------------------------------------- printing

  function Hex(n: nat): (s: string)
    ensures s != ""
  {
    if n < 16 then [HexChar(n)] else Hex(n / 16) + [HexChar(n % 16)]
  }

  function PrintHeader(n: nat, signature: string): string {
    Hex(n) + if signature == "" then "" else ";" + (SIGNATURE + "=" + signature)
  }

  function PrintTrailers(trailers: seq<(string, string)>): (s: string)
    ensures s != ""
  {
    if trailers == [] then CRLF
    else trailers[0].0 + ":" + trailers[0].1 + CRLF + PrintTrailers(trailers[1..])
  }

  function Tail(f: Frame): Frame
    requires |f.chunks| == |f.signatures| > 0
  {
    Frame(f.chunks[1..], f.signatures[1..], f.trailers)
  }

  function Print(f: Frame): string
    requires |f.chunks| == |f.signatures| > 0
    decreases |f.chunks|
  {
    PrintHeader(|f.chunks[0]|, f.signatures[0]) + CRLF +
    if |f.chunks| == 1 then PrintTrailers(f.trailers) else f.chunks[0] + CRLF + Print(Tail(f))
  }

  predicate SignatureFits(signature: string) {
    Trimmed(signature) && OneLine(signature) && ';' !in signature
  }

  predicate TrailerFits(t: (string, string)) {
    t.0 != "" && Canonical(t.0) == t.0 && Trimmed(t.0) && OneLine(t.0) && ':' !in t.0 && Trimmed(t.1) && OneLine(t.1)
  }

  predicate TrailersFit(trailers: seq<(string, string)>) {
    forall i :: 0 <= i < |trailers| ==> TrailerFits(trailers[i])
  }

  /** One signature a chunk, an empty chunk last and nowhere else, and text that keeps to its line. */
  predicate WellFramed(f: Frame) {
    && |f.chunks| == |f.signatures| > 0
    && (forall i :: 0 <= i < |f.chunks| ==> |f.chunks[i]| <= MAX_SIZE && SignatureFits(f.signatures[i]))
    && (forall i :: 0 <= i < |f.chunks| ==> (f.chunks[i] == "" <==> i == |f.chunks| - 1))
    && TrailersFit(f.trailers)
  }

  // ---------------------------------------------------------------- printed frames are read

  predicate Plain(s: string) {
    forall i :: 0 <= i < |s| ==> s[i] != ';' && !Space(s[i]) && s[i] != '-' && s[i] != '+'
  }

  lemma {:induction false} HexReads(n: nat)
    ensures HexNumber(Hex(n)) == Some(n) && Plain(Hex(n))
  {
    var s := Hex(n);
    if n >= 16 {
      HexReads(n / 16);
      assert s[..|s| - 1] == Hex(n / 16);
    } else {
      assert s[..0] == "";
    }
  }

  lemma SizeReads(n: nat)
    requires n <= MAX_SIZE
    ensures Size(Hex(n)) == Some(n)
  {
    HexReads(n);
    assert Hex(n)[0] != '-' && Hex(n)[0] != '+';
    hide Hex, HexNumber;
  }

  lemma SignatureReads(signature: string)
    requires SignatureFits(signature)
    ensures Extensions("", SIGNATURE + "=" + signature) == Some(signature)
  {
    hide Extend, Index;
    var t := SIGNATURE + "=" + signature;
    assert ';' !in t;
    IndexAt(t, ';', "");
    assert t[..|t|] == t;
    ExtendReads(signature);
  }

  lemma ExtendReads(signature: string)
    requires Trimmed(signature)
    ensures Extend("", SIGNATURE + "=" + signature) == Some(signature)
  {
    hide Index, Trim;
    var t := SIGNATURE + "=" + signature;
    IndexAt(SIGNATURE, '=', signature);
    assert t[..|SIGNATURE|] == SIGNATURE && t[|SIGNATURE| + 1..] == signature;
    assert Trimmed(SIGNATURE) && EqualFold(SIGNATURE, SIGNATURE);
  }

  lemma HeaderReads(n: nat, signature: string)
    requires SignatureFits(signature)
    ensures Header(PrintHeader(n, signature)) == Some((Hex(n), signature))
    ensures OneLine(PrintHeader(n, signature))
  {
    hide Hex, Extensions, HexNumber;
    HexReads(n);
    var h := PrintHeader(n, signature);
    assert ';' !in Hex(n);
    PlainTrimmed(Hex(n));
    if signature == "" {
      assert h == Hex(n);
      IndexAt(h, ';', "");
      assert h[..|h|] == h;
    } else {
      var t := SIGNATURE + "=" + signature;
      assert h == Hex(n) + [';'] + t;
      IndexAt(Hex(n), ';', t);
      assert h[..|Hex(n)|] == Hex(n) && h[|Hex(n)| + 1..] == t;
      SignatureReads(signature);
      OneLineJoins(SIGNATURE + "=", signature);
      OneLineJoins(Hex(n) + ";", t);
      assert h == Hex(n) + ";" + t;
    }
  }

  lemma PlainTrimmed(s: string)
    requires Plain(s)
    ensures Trimmed(s) && OneLine(s)
  {
  }

  lemma OneLineJoins(a: string, b: string)
    requires OneLine(a) && OneLine(b) && (a == "" || a[|a| - 1] != '\r')
    ensures OneLine(a + b)
  {
    forall i | 0 <= i < |a + b|
      ensures !CrLfAt(a + b, i)
    {
      assert i < |a| ==> !CrLfAt(a, i);
      assert i >= |a| ==> !CrLfAt(b, i - |a|);
    }
  }

  /** A line and what follows it. */
  lemma LineReads(line: string, after: string)
    requires OneLine(line)
    ensures var s := line + CRLF + after;
      LineEnd(s) == |line| < |s| && s[..|line|] == line && s[|line| + 2..] == after
  {
    LineEndAt(line, after);
  }

  lemma FieldReads(t: (string, string))
    requires TrailerFits(t)
    ensures Field(t.0 + ":" + t.1) == Some(t) && OneLine(t.0 + ":" + t.1)
  {
    var line := t.0 + ":" + t.1;
    IndexAt(t.0, ':', t.1);
    assert line[..|t.0|] == t.0 && line[|t.0| + 1..] == t.1;
    OneLineJoins(t.0, ":");
    OneLineJoins(t.0 + ":", t.1);
  }

  lemma {:induction false} TrailersRead(trailers: seq<(string, string)>)
    requires TrailersFit(trailers)
    ensures TrailerLines(PrintTrailers(trailers)) == Some(trailers)
  {
    var s := PrintTrailers(trailers);
    if trailers == [] {
      assert s == "" + CRLF + "";
      LineReads("", "");
      assert TrailerLines(s) == Some([]);
    } else {
      var line := trailers[0].0 + ":" + trailers[0].1;
      FieldReads(trailers[0]);
      LineReads(line, PrintTrailers(trailers[1..]));
      TrailersRead(trailers[1..]);
      hide Field, LineEnd, OneLine, Trimmed;
      assert s == line + CRLF + PrintTrailers(trailers[1..]) && line != "";
      assert trailers == [trailers[0]] + trailers[1..];
    }
  }

  /** One line of a body, read as a header. */
  lemma ParseAt(s: string, nl: nat, text: string, signature: string, after: string)
    requires LineEnd(s) == nl < |s| && Header(s[..nl]) == Some((text, signature)) && s[nl + 2..] == after
    ensures Parse(s) == if text == "" then Parse(after)
      else if Size(text).None? then None else ParseSized(Size(text).value, signature, after)
  {
    hide Header, Size, LineEnd, ParseSized;
  }

  lemma {:induction false} PrintedIsRead(f: Frame)
    requires WellFramed(f)
    ensures Parse(Print(f)) == Some(f)
    decreases |f.chunks|
  {
    hide Parse, Header, Size, Hex, LineEnd, PrintHeader, PrintTrailers, TrailerLines, SignatureFits, OneLine;
    var chunk, signature := f.chunks[0], f.signatures[0];
    var header := PrintHeader(|chunk|, signature);
    var after := if |f.chunks| == 1 then PrintTrailers(f.trailers) else chunk + CRLF + Print(Tail(f));
    HeaderReads(|chunk|, signature);
    SizeReads(|chunk|);
    LineReads(header, after);
    assert Print(f) == header + CRLF + after;
    ParseAt(Print(f), |header|, Hex(|chunk|), signature, after);
    if |f.chunks| == 1 {
      TrailersRead(f.trailers);
      assert f.chunks == [""] && f.signatures == [signature];
    } else {
      assert after[..|chunk|] == chunk && after[|chunk|..|chunk| + 2] == CRLF && after[|chunk| + 2..] == Print(Tail(f));
      PrintedIsRead(Tail(f));
      assert f.chunks == [chunk] + f.chunks[1..] && f.signatures == [signature] + f.signatures[1..];
    }
  }

  // ---------------------------------------------------------------- what is read is well formed

  lemma {:induction false} HexSizeBound(s: string)
    requires Size(s).Some?
    ensures Size(s).value <= MAX_SIZE
  {
  }

  lemma ExtendFits(signature: string, extension: string)
    requires SignatureFits(signature) && OneLine(extension) && ';' !in extension
    ensures Extend(signature, extension).Some? ==> SignatureFits(Extend(signature, extension).value)
  {
    var i := Index(extension, '=');
    if i < |extension| {
      var value := extension[i + 1..];
      SliceIsOneLine(extension, i + 1, |extension|);
      assert extension[i + 1..|extension|] == value;
      TrimKeepsOneLine(value);
    }
  }

  lemma {:induction false} ExtensionsFit(signature: string, rest: string)
    requires SignatureFits(signature) && OneLine(rest)
    ensures Extensions(signature, rest).Some? ==> SignatureFits(Extensions(signature, rest).value)
    decreases |rest|
  {
    hide Extend, SignatureFits, OneLine;
    var i := Index(rest, ';');
    SliceIsOneLine(rest, 0, i);
    assert rest[0..i] == rest[..i];
    ExtendFits(signature, rest[..i]);
    var next := Extend(signature, rest[..i]);
    if next.Some? && i < |rest| {
      SliceIsOneLine(rest, i + 1, |rest|);
      assert rest[i + 1..|rest|] == rest[i + 1..];
      ExtensionsFit(next.value, rest[i + 1..]);
    }
  }

  lemma HeaderFits(header: string)
    requires OneLine(header)
    ensures Header(header).Some? ==> SignatureFits(Header(header).value.1)
  {
    var i := Index(header, ';');
    if i < |header| {
      SliceIsOneLine(header, i + 1, |header|);
      assert header[i + 1..|header|] == header[i + 1..];
      ExtensionsFit("", header[i + 1..]);
    }
  }

  lemma CanonicalFits(name: string)
    requires Trimmed(name) && OneLine(name) && ':' !in name
    ensures var c := Canonical(name);
      |c| == |name| && Canonical(c) == c && Trimmed(c) && OneLine(c) && ':' !in c
  {
    CanonicalKeeps(name);
    var c := Canonical(name);
    hide Canonical;
    assert c != "" ==> c[0] in c && c[|c| - 1] in c;
    assert forall i :: 0 <= i < |c| ==> c[i] in c;
  }

  lemma FieldFits(line: string)
    requires OneLine(line)
    ensures Field(line).Some? ==> TrailerFits(Field(line).value)
  {
    var i := Index(line, ':');
    if i < |line| {
      SliceIsOneLine(line, 0, i);
      SliceIsOneLine(line, i + 1, |line|);
      assert line[0..i] == line[..i] && line[i + 1..|line|] == line[i + 1..];
      TrimKeepsOneLine(line[..i]);
      TrimKeepsOneLine(line[i + 1..]);
      CanonicalFits(Trim(line[..i]));
    }
  }

  lemma {:induction false} TrailersReadFit(rest: string)
    ensures TrailerLines(rest).Some? ==> TrailersFit(TrailerLines(rest).value)
    decreases |rest|
  {
    hide TrailerFits, Field;
    var nl := LineEnd(rest);
    if 0 < nl < |rest| {
      FieldFits(rest[..nl]);
      TrailersReadFit(rest[nl + 2..]);
    }
  }

  lemma {:induction false} ReadIsWellFramed(rest: string)
    ensures Parse(rest).Some? ==> WellFramed(Parse(rest).value)
    decreases |rest|
  {
    hide Header, Size, SignatureFits, WellFramed, ParseSized;
    var nl := LineEnd(rest);
    if nl < |rest| {
      HeaderFits(rest[..nl]);
      var header, after := Header(rest[..nl]), rest[nl + 2..];
      if header.Some? {
        if header.value.0 == "" {
          ReadIsWellFramed(after);
        } else if Size(header.value.0).Some? {
          HexSizeBound(header.value.0);
          SizedIsWellFramed(Size(header.value.0).value, header.value.1, after);
        }
      }
    }
  }

  lemma {:induction false} SizedIsWellFramed(n: nat, signature: string, after: string)
    requires n <= MAX_SIZE && SignatureFits(signature)
    ensures ParseSized(n, signature, after).Some? ==> WellFramed(ParseSized(n, signature, after).value)
    decreases |after|
  {
    hide Parse, SignatureFits, TrailerFits;
    if n == 0 {
      TrailersReadFit(after);
    } else if |after| >= n + 2 {
      var next := Parse(after[n + 2..]);
      ReadIsWellFramed(after[n + 2..]);
      if next.Some? {
        Framed(after[..n], signature, next.value);
      }
    }
  }

  lemma Framed(chunk: string, signature: string, f: Frame)
    requires WellFramed(f) && 0 < |chunk| <= MAX_SIZE && SignatureFits(signature)
    ensures WellFramed(Frame([chunk] + f.chunks, [signature] + f.signatures, f.trailers))
  {
    hide SignatureFits, TrailersFit;
    var g := Frame([chunk] + f.chunks, [signature] + f.signatures, f.trailers);
    forall i | 0 < i < |g.chunks|
      ensures g.chunks[i] == f.chunks[i - 1] && g.signatures[i] == f.signatures[i - 1]
    {
    }
  }

  /** The frames some body reads as are exactly the well-formed ones, and every body that is read means
      the same as the printed form of its frame. */
  lemma ReadExactlyTheWellFramed(f: Frame)
    ensures (exists s :: Parse(s) == Some(f)) <==> WellFramed(f)
    ensures forall s :: Parse(s) == Some(f) ==> Parse(Print(f)) == Parse(s)
  {
    hide Parse, Print, WellFramed;
    forall s | Parse(s) == Some(f)
      ensures WellFramed(f)
    {
      ReadIsWellFramed(s);
    }
    WellFramedShape(f);
    if WellFramed(f) {
      PrintedIsRead(f);
    }
  }

  lemma WellFramedShape(f: Frame)
    ensures WellFramed(f) ==> |f.chunks| == |f.signatures| > 0
  {
  }

  // ---------------------------------------------------------------- truncation

  /** Where the final chunk's header line ends, in a body that is read. */
  function FinalHeaderEnd(rest: string): (end: nat)
    requires Parse(rest).Some?
    ensures end <= |rest|
    decreases |rest|
  {
    hide Header, Size, LineEnd;
    var nl := LineEnd(rest);
    var header, after := Header(rest[..nl]), rest[nl + 2..];
    if header.value.0 == "" then nl + 2 + FinalHeaderEnd(after)
    else
      var size := Size(header.value.0);
      assert ParseSized(size.value, header.value.1, after).Some?;
      if size.value == 0 then nl + 2
      else nl + 2 + size.value + 2 + FinalHeaderEnd(after[size.value + 2..])
  }

  /** A line cut short is no line. */
  lemma LineCut(s: string, k: nat)
    requires k <= |s|
    ensures LineEnd(s[..k]) == if LineEnd(s) + 2 <= k then LineEnd(s) else k
  {
    var nl, cut := LineEnd(s), LineEnd(s[..k]);
    if cut < k {
      assert CrLfAt(s, cut);
      FirstLineEnd(s, cut);
    }
    if nl + 2 <= k {
      assert CrLfAt(s[..k], nl);
      FirstLineEnd(s[..k], nl);
    }
  }

  lemma {:induction false} TrailersCut(rest: string, k: nat)
    requires k < |rest| && TrailerLines(rest).Some?
    ensures TrailerLines(rest[..k]).None?
    decreases |rest|
  {
    hide Field;
    var nl := LineEnd(rest);
    LineCut(rest, k);
    if nl + 2 <= k {
      assert nl > 0;
      var cut := rest[..k];
      assert cut[..nl] == rest[..nl] && cut[nl + 2..] == rest[nl + 2..][..k - nl - 2];
      TrailersCut(rest[nl + 2..], k - nl - 2);
    }
  }

  /** A cut inside the first line. */
  lemma CutEarly(rest: string, k: nat)
    requires Parse(rest).Some? && k < LineEnd(rest) + 2 && k <= |rest|
    ensures Parse(rest[..k]).None? && k < FinalHeaderEnd(rest)
  {
    hide Header, Size, LineEnd, ParseSized;
    LineCut(rest, k);
  }

  /** The first line of a body that is read, and what its reading comes down to. */
  lemma FirstLine(rest: string) returns (nl: nat, text: string, signature: string, after: string)
    requires Parse(rest).Some?
    ensures nl == LineEnd(rest) && nl + 2 <= |rest| && after == rest[nl + 2..]
    ensures Header(rest[..nl]) == Some((text, signature))
    ensures if text == "" then
        Parse(rest) == Parse(after) && FinalHeaderEnd(rest) == nl + 2 + FinalHeaderEnd(after)
      else
        && Size(text).Some?
        && var n := Size(text).value;
        Parse(rest) == ParseSized(n, signature, after) &&
        FinalHeaderEnd(rest) == nl + 2 + if n == 0 then 0 else n + 2 + FinalHeaderEnd(after[n + 2..])
  {
    hide Header, Size, LineEnd;
    nl := LineEnd(rest);
    text, signature := Header(rest[..nl]).value.0, Header(rest[..nl]).value.1;
    after := rest[nl + 2..];
    ParseAt(rest, nl, text, signature, after);
  }

  /** Of all the ways to cut a body that is read, only one goes unnoticed: right after the final
      chunk's header line, where the trailers are lost. */
  lemma {:induction false} CutExactly(rest: string, k: nat)
    requires Parse(rest).Some? && k < |rest|
    ensures Parse(rest[..k]).Some? <==> k == FinalHeaderEnd(rest)
    ensures k == FinalHeaderEnd(rest) ==> Parse(rest[..k]) == Some(Parse(rest).value.(trailers := []))
    decreases |rest|
  {
    hide Parse, ParseSized, FinalHeaderEnd, Header, Size, LineEnd;
    var nl, text, signature, after := FirstLine(rest);
    if k < nl + 2 {
      CutEarly(rest, k);
    } else {
      var cut := rest[..k];
      LineCut(rest, k);
      assert cut[..nl] == rest[..nl] && cut[nl + 2..] == after[..k - nl - 2];
      ParseAt(cut, nl, text, signature, after[..k - nl - 2]);
      if text == "" {
        CutExactly(after, k - nl - 2);
      } else {
        CutSized(Size(text).value, signature, after, k - nl - 2);
      }
    }
  }

  /** The same from a chunk's data on. */
  lemma {:induction false} CutSized(n: nat, signature: string, after: string, k: nat)
    requires ParseSized(n, signature, after).Some? && k < |after|
    ensures var end := if n == 0 then 0 else n + 2 + FinalHeaderEnd(after[n + 2..]);
      && (ParseSized(n, signature, after[..k]).Some? <==> k == end)
      && (k == end ==>
        ParseSized(n, signature, after[..k]) == Some(ParseSized(n, signature, after).value.(trailers := [])))
    decreases |after|
  {
    hide Parse, Trailers, FinalHeaderEnd;
    if n == 0 {
      FinalCut(after, k);
    } else if n + 2 <= k {
      var rest := after[n + 2..];
      CutExactly(rest, k - n - 2);
      hide ParseSized;
      CutChunk(n, signature, after, k);
      CutChunk(n, signature, after, |after|);
      assert after[..|after|] == after && rest[..|rest|] == rest;
    }
  }

  /** A cut after a chunk's data is a cut of what follows it. */
  lemma CutChunk(n: nat, signature: string, after: string, k: nat)
    requires ParseSized(n, signature, after).Some? && 0 < n && n + 2 <= k <= |after|
    ensures ParseSized(n, signature, after[..k]) ==
      Prepend(after[..n], signature, Parse(after[n + 2..][..k - n - 2]))
  {
    hide Parse, Trailers;
    CutPieces(after, n, k);
  }

  lemma CutPieces(s: string, n: nat, k: nat)
    requires n + 2 <= k <= |s|
    ensures s[..k][..n] == s[..n]
    ensures s[..k][n..n + 2] == s[n..n + 2]
    ensures s[..k][n + 2..] == s[n + 2..][..k - n - 2]
  {
  }

  /** A cut in the final chunk's trailers is noticed unless it leaves none of them. */
  lemma FinalCut(after: string, k: nat)
    requires Trailers(after).Some? && k < |after|
    ensures Trailers(after[..k]) == if k == 0 then Some([]) else None
  {
    hide TrailerLines;
    if k > 0 {
      TrailersCut(after, k);
    }
  }
}
