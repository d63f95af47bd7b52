/** The aws-chunked framing of a request body: sized and signed chunks, an empty one last, and
    trailers after it (internal/edge/chunked.go). */
module Chunks {
  import opened Options
  import opened Texts

  /** What a framed body holds. */
  datatype Frame = Frame(chunks: seq<string>, signatures: seq<string>, trailers: seq<(string, string)>)

  function Concat(chunks: seq<string>): string {
    if chunks == [] then "" else chunks[0] + Concat(chunks[1..])
  }

  // ---------------------------------------------------------------- sizes

  const MAX_SIZE := 0x7fff_ffff_ffff_ffff

  /** A signed hexadecimal number of 64 bits, when it is not negative. */
  function Size(s: string): Option<nat> {
    var signed := s != "" && (s[0] == '-' || s[0] == '+');
    var digits := if signed then s[1..] else s;
    var n := HexNumber(digits);
    if digits == "" || n.None? || n.value > MAX_SIZE || (s[0] == '-' && n.value > 0) then None else n
  }

  // ---------------------------------------------------------------- reading

  const SIGNATURE := "chunk-signature"

  /** The signature after one extension, or nothing when there are two. */
  function Extend(signature: string, extension: string): Option<string> {
    var i := Index(extension, '=');
    if i < |extension| && EqualFold(Trim(extension[..i]), SIGNATURE) then
      if signature != "" then None else Some(Trim(extension[i + 1..]))
    else Some(signature)
  }

  /** The signature after extensions, each after a semicolon. */
  function Extensions(signature: string, rest: string): Option<string>
    decreases |rest|
  {
    var i := Index(rest, ';');
    var next := Extend(signature, rest[..i]);
    if next.None? || i == |rest| then next else Extensions(next.value, rest[i + 1..])
  }

  /** The size a chunk's header begins with, trimmed, and its signature. */
  function Header(header: string): Option<(string, string)> {
    var i := Index(header, ';');
    var signature := if i < |header| then Extensions("", header[i + 1..]) else Some("");
    if signature.None? then None else Some((Trim(header[..i]), signature.value))
  }

  function Field(line: string): Option<(string, string)> {
    var i := Index(line, ':');
    if i == |line| || Trim(line[..i]) == "" then None
    else Some((Canonical(Trim(line[..i])), Trim(line[i + 1..])))
  }

  /** Trailers up to the blank line that ends them, with nothing after it. */
  function TrailerLines(rest: string): Option<seq<(string, string)>>
    decreases |rest|
  {
    var nl := LineEnd(rest);
    if nl == |rest| then None
    else if nl == 0 then if |rest| == 2 then Some([]) else None
    else
      var field := Field(rest[..nl]);
      if field.None? then None
      else
        var more := TrailerLines(rest[nl + 2..]);
        if more.None? then None else Some([field.value] + more.value)
  }

  function Trailers(rest: string): Option<seq<(string, string)>> {
    if rest == "" then Some([]) else TrailerLines(rest)
  }

  function Prepend(chunk: string, signature: string, f: Option<Frame>): Option<Frame> {
    if f.None? then None
    else Some(Frame([chunk] + f.value.chunks, [signature] + f.value.signatures, f.value.trailers))
  }

  /** What a framed body reads as, from a chunk's header on. */
  function Parse(rest: string): (f: Option<Frame>)
    decreases |rest|
  {
    var nl := LineEnd(rest);
    if nl == |rest| then None
    else
      var header, after := Header(rest[..nl]), rest[nl + 2..];
      if header.None? then None
      else if header.value.0 == "" then Parse(after)
      else
        var size := Size(header.value.0);
        if size.None? then None else ParseSized(size.value, header.value.1, after)
  }

  /** A chunk's data and what follows it, its header read. */
  function ParseSized(n: nat, signature: string, after: string): (f: Option<Frame>)
    decreases |after|
  {
    if n == 0 then
      var trailers := Trailers(after);
      if trailers.None? then None else Some(Frame([""], [signature], trailers.value))
    else if |after| < n + 2 || after[n..n + 2] != CRLF then None
    else Prepend(after[..n], signature, Parse(after[n + 2..]))
  }

  /** What was read so far and what is read from here make up the whole. */
  ghost predicate Completes(body: string, chunks: seq<string>, signatures: seq<string>, rest: string, whole: string) {
    var more, all := Parse(rest), Parse(whole);
    if more.None? then all.None?
    else
      && all == Some(Frame(chunks + more.value.chunks, signatures + more.value.signatures, more.value.trailers))
      && Concat(all.value.chunks) == body + Concat(more.value.chunks)
  }

  lemma {:induction false} ConcatJoins(a: seq<string>, b: seq<string>)
    ensures Concat(a + b) == Concat(a) + Concat(b)
  {
    if a == [] {
      assert a + b == b;
    } else {
      assert (a + b)[1..] == a[1..] + b;
      ConcatJoins(a[1..], b);
    }
  }

  method ReadSignature(header: string) returns (sizePart: string, signature: Option<string>)
    ensures match Header(header)
      case None => signature.None?
      case Some(h) => Trim(sizePart) == h.0 && signature == Some(h.1)
  {
    sizePart := header;
    signature := Some("");
    var i := Index(header, ';');
    if i < |header| {
      sizePart := header[..i];
      var rest := header[i + 1..];
      var more := true;
      while more
        invariant if more then signature.Some? && Extensions(signature.value, rest) == Extensions("", header[i + 1..])
          else signature == Extensions("", header[i + 1..])
        decreases more, |rest|
      {
        var j := Index(rest, ';');
        signature := Extend(signature.value, rest[..j]);
        more := signature.Some? && j < |rest|;
        if more {
          rest := rest[j + 1..];
        }
      }
    } else {
      assert header[..i] == header;
    }
  }

  method ReadTrailers(all: string) returns (trailers: Option<seq<(string, string)>>)
    ensures trailers == Trailers(all)
  {
    hide Field, LineEnd;
    if |all| == 0 {
      return Some([]);
    }
    var rest, read := all, [];
    assert TrailerLines(all).Some? ==> [] + TrailerLines(all).value == TrailerLines(all).value;
    while true
      invariant match TrailerLines(rest)
        case None => TrailerLines(all).None?
        case Some(more) => TrailerLines(all) == Some(read + more)
      decreases |rest|
    {
      var nl := LineEnd(rest);
      if nl == |rest| {
        return None;
      }
      var line := rest[..nl];
      if line == "" {
        assert read + [] == read;
        return if |rest| != 2 then None else Some(read);
      }
      var field := Field(line);
      if field.None? {
        return None;
      }
      ghost var more := TrailerLines(rest[nl + 2..]);
      if more.Some? {
        assert read + ([field.value] + more.value) == read + [field.value] + more.value;
      }
      rest, read := rest[nl + 2..], read + [field.value];
    }
  }

  method ParseChunked(raw: string) returns (body: string, frame: Option<Frame>)
    ensures frame == Parse(raw)
    ensures frame.Some? ==> body == Concat(frame.value.chunks)
  {
    hide Header, Trailers, Size;
    body := "";
    frame := None;
    var chunks, signatures, rest := [], [], raw;
    ghost var all := Parse(raw);
    if all.Some? {
      assert [] + all.value.chunks == all.value.chunks && [] + all.value.signatures == all.value.signatures;
    }
    while |rest| > 0
      invariant Completes(body, chunks, signatures, rest, raw)
      decreases |rest|
    {
      var nl := LineEnd(rest);
      if nl == |rest| {
        return;
      }
      var sizePart, signature := ReadSignature(rest[..nl]);
      ghost var before := rest;
      rest := rest[nl + 2..];
      if signature.None? {
        return;
      }
      if Trim(sizePart) == "" {
        continue;
      }
      var n := Size(Trim(sizePart));
      if n.None? {
        return;
      }
      assert Parse(before) == ParseSized(n.value, signature.value, rest);
      if n.value == 0 {
        var trailers := ReadTrailers(rest);
        if trailers.Some? {
          assert body + Concat([""]) == body;
          frame := Some(Frame(chunks + [""], signatures + [signature.value], trailers.value));
        }
        return;
      }
      if |rest| < 2 || n.value > |rest| - 2 {
        return;
      }
      var chunk := rest[..n.value];
      if rest[n.value..n.value + 2] != CRLF {
        return;
      }
      rest := rest[n.value + 2..];
      Complete(body, chunks, signatures, before, raw, chunk, signature.value, rest);
      body := body + chunk;
      chunks, signatures := chunks + [chunk], signatures + [signature.value];
    }
  }

  lemma Complete(body: string, chunks: seq<string>, signatures: seq<string>, before: string, whole: string,
                 chunk: string, signature: string, rest: string)
    requires Completes(body, chunks, signatures, before, whole)
    requires Parse(before) == Prepend(chunk, signature, Parse(rest))
    ensures Completes(body + chunk, chunks + [chunk], signatures + [signature], rest, whole)
  {
    hide Parse;
    var more := Parse(rest);
    if more.Some? {
      var f := more.value;
      assert chunks + ([chunk] + f.chunks) == chunks + [chunk] + f.chunks;
      assert signatures + ([signature] + f.signatures) == signatures + [signature] + f.signatures;
      assert ([chunk] + f.chunks)[1..] == f.chunks;
      assert body + (chunk + Concat(f.chunks)) == body + chunk + Concat(f.chunks);
    }
  }
}
