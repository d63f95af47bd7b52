/** Text a character to a byte: finding, folding and trimming. */
module Texts {
  import opened Options
  import opened Decimals

  function Lower(c: char): char {
    if 'A' <= c <= 'Z' then c - 'A' + 'a' else c
  }

  /** Equal up to letter case, for words of letters that no other letter folds to. */
  predicate EqualFold(a: string, b: string) {
    |a| == |b| && forall i :: 0 <= i < |a| ==> Lower(a[i]) == Lower(b[i])
  }

  /** Where c first stands, or the length. */
  function Index(s: string, c: char): (i: nat)
    ensures i <= |s| && (i < |s| ==> s[i] == c) && c !in s[..i]
  {
    if s == "" || s[0] == c then 0 else 1 + Index(s[1..], c)
  }

  lemma {:induction false} IndexAt(a: string, c: char, b: string)
    requires c !in a
    ensures Index(a + [c] + b, c) == |a|
    ensures Index(a, c) == |a|
  {
    var s := a + [c] + b;
    if a != "" {
      assert s[1..] == a[1..] + [c] + b;
      IndexAt(a[1..], c, b);
    }
  }

  /** The text t stands in s at p. */
  predicate At(s: string, p: nat, t: string) {
    p + |t| <= |s| && s[p..p + |t|] == t
  }

  lemma AtSplit(s: string, p: nat, a: string, b: string)
    ensures At(s, p, a + b) <==> At(s, p, a) && At(s, p + |a|, b)
  {
    if p + |a + b| <= |s| {
      var t := s[p..p + |a + b|];
      assert t[..|a|] == s[p..p + |a|] && t[|a|..] == s[p + |a|..p + |a| + |b|];
      assert (a + b)[..|a|] == a && (a + b)[|a|..] == b;
      assert t == t[..|a|] + t[|a|..];
    }
  }

  lemma AtFits(s: string, p: nat, t: string)
    requires At(s, p, t)
    ensures p + |t| <= |s|
  {
  }

  lemma AtChar(s: string, p: nat, t: string, i: nat)
    requires At(s, p, t) && i < |t|
    ensures p + i < |s| && s[p + i] == t[i]
  {
    assert s[p..p + |t|][i] == s[p + i];
  }

  /** The first place from p on that holds c, or the end. */
  function SkipTo(s: string, p: nat, c: char): (q: nat)
    requires p <= |s|
    ensures p <= q <= |s|
    ensures q < |s| ==> s[q] == c
    ensures forall i :: p <= i < q ==> s[i] != c
    decreases |s| - p
  {
    if p < |s| && s[p] != c then SkipTo(s, p + 1, c) else p
  }

  lemma {:induction false} SkipToAt(s: string, p: nat, q: nat, c: char)
    requires p <= q < |s| && (forall i :: p <= i < q ==> s[i] != c) && s[q] == c
    ensures SkipTo(s, p, c) == q
    decreases q - p
  {
    if p < q {
      SkipToAt(s, p + 1, q, c);
    }
  }

  predicate CrLfAt(s: string, i: int) {
    0 <= i < |s| - 1 && s[i] == '\r' && s[i + 1] == '\n'
  }

  predicate OneLine(s: string) {
    forall i :: 0 <= i < |s| ==> !CrLfAt(s, i)
  }

  /** Where the first line ends, or the length. */
  function LineEnd(s: string): (i: nat)
    ensures i <= |s| && (i < |s| ==> CrLfAt(s, i)) && OneLine(s[..i])
  {
    if s == "" || CrLfAt(s, 0) then 0
    else
      var i := 1 + LineEnd(s[1..]);
      assert forall k: nat :: CrLfAt(s[..i], k) ==> k > 0 && CrLfAt(s[1..][..i - 1], k - 1);
      i
  }

  const CRLF := "\r\n"

  lemma {:induction false} LineEndAt(a: string, b: string)
    requires OneLine(a)
    ensures LineEnd(a + CRLF + b) == |a|
    decreases |a|
  {
    var s := a + CRLF + b;
    if a != "" {
      assert s[1..] == a[1..] + CRLF + b;
      assert forall i: nat :: CrLfAt(a[1..], i) ==> CrLfAt(a, i + 1);
      assert CrLfAt(s, 0) ==> CrLfAt(a, 0) by {
        assert |a| > 1 ==> s[1] == a[1];
      }
      LineEndAt(a[1..], b);
    }
  }

  lemma {:induction false} FirstLineEnd(s: string, i: nat)
    requires CrLfAt(s, i)
    ensures LineEnd(s) <= i
  {
    if i > 0 && !CrLfAt(s, 0) {
      assert CrLfAt(s[1..], i - 1);
      FirstLineEnd(s[1..], i - 1);
    }
  }

  /** Hexadecimal digits, and the number that some of them spell. */
  function HexDigit(c: char): Option<nat> {
    if '0' <= c <= '9' then Some((c - '0') as nat)
    else if 'a' <= c <= 'f' then Some((c - 'a') as nat + 10)
    else if 'A' <= c <= 'F' then Some((c - 'A') as nat + 10)
    else None
  }

  function HexNumber(s: string): Option<nat> {
    if s == "" then Some(0)
    else
      var high, low := HexNumber(s[..|s| - 1]), HexDigit(s[|s| - 1]);
      if high.None? || low.None? then None else Some(16 * high.value + low.value)
  }

  predicate Space(c: char) {
    c in {' ', '\t', '\n', '\r', 11 as char, 12 as char}
  }

  function HexChar(n: nat): (c: char)
    requires n < 16
    ensures HexDigit(c) == Some(n) && c !in {';', '-', '+', '"', '\\'} && !Space(c)
  {
    if n < 10 then '0' + n as char else 'a' + (n - 10) as char
  }

  predicate Trimmed(s: string) {
    s == "" || (!Space(s[0]) && !Space(s[|s| - 1]))
  }

  /** The part of s that begins and ends with no space. */
  function Trim(s: string): (t: string)
    ensures Trimmed(t) && (Trimmed(s) ==> t == s)
    ensures |t| <= |s| && forall c :: c in t ==> c in s
    decreases |s|
  {
    if Trimmed(s) then s else if Space(s[0]) then Trim(s[1..]) else Trim(s[..|s| - 1])
  }

  lemma {:induction false} TrimKeepsOneLine(s: string)
    requires OneLine(s)
    ensures OneLine(Trim(s))
    decreases |s|
  {
    if !Trimmed(s) {
      if Space(s[0]) {
        SliceIsOneLine(s, 1, |s|);
        assert s[1..|s|] == s[1..];
        TrimKeepsOneLine(s[1..]);
      } else {
        SliceIsOneLine(s, 0, |s| - 1);
        assert s[0..|s| - 1] == s[..|s| - 1];
        TrimKeepsOneLine(s[..|s| - 1]);
      }
    }
  }

  lemma SliceIsOneLine(s: string, i: nat, j: nat)
    requires i <= j <= |s| && OneLine(s)
    ensures OneLine(s[i..j])
  {
    forall k: nat
      ensures !CrLfAt(s[i..j], k)
    {
      assert !CrLfAt(s, i + k);
    }
  }

  /** The order of bytes. */
  predicate Less(a: string, b: string) {
    b != [] && (a == [] || a[0] < b[0] || (a[0] == b[0] && Less(a[1..], b[1..])))
  }

  lemma {:induction false} Trichotomy(a: string, b: string)
    ensures !(Less(a, b) && Less(b, a)) && (Less(a, b) || Less(b, a) || a == b)
    decreases |a|
  {
    if a != [] && b != [] {
      Trichotomy(a[1..], b[1..]);
      assert a == [a[0]] + a[1..] && b == [b[0]] + b[1..];
    }
  }

  lemma {:induction false} LessJoins(a: string, b: string, c: string)
    requires Less(a, b) && Less(b, c)
    ensures Less(a, c)
    decreases |a|
  {
    if a != [] && a[0] == b[0] == c[0] {
      LessJoins(a[1..], b[1..], c[1..]);
    }
  }

  predicate Least(k: string, keys: set<string>) {
    forall j :: j in keys && j != k ==> Less(k, j)
  }

  lemma {:induction false} LeastExists(keys: set<string>)
    requires keys != {}
    ensures exists k :: k in keys && Least(k, keys)
    ensures forall k, l :: k in keys && l in keys && Least(k, keys) && Least(l, keys) ==> k == l
    decreases |keys|
  {
    forall k, l | k in keys && l in keys && Least(k, keys) && Least(l, keys)
      ensures k == l
    {
      Trichotomy(k, l);
    }
    var some :| some in keys;
    var others := keys - {some};
    assert keys == others + {some};
    if others == {} {
      assert Least(some, keys);
    } else {
      LeastExists(others);
      var k :| k in others && Least(k, others);
      Trichotomy(some, k);
      if Less(some, k) {
        forall j | j in keys && j != some
          ensures Less(some, j)
        {
          if j != k {
            LessJoins(some, k, j);
          }
        }
        assert Least(some, keys);
      } else {
        assert Least(k, keys);
      }
    }
  }

  ghost predicate Ascending(s: seq<string>) {
    forall i, j :: 0 <= i < j < |s| ==> Less(s[i], s[j])
  }

  lemma LeastFirst(k: string, keys: set<string>, rest: seq<string>)
    requires k in keys && Least(k, keys) && Ascending(rest) && forall l :: l in rest <==> l in keys - {k}
    ensures Ascending([k] + rest) && forall l :: l in [k] + rest <==> l in keys
  {
    hide Less;
    var s := [k] + rest;
    assert forall l :: l in s <==> l == k || l in rest;
    forall i, j | 0 <= i < j < |s|
      ensures Less(s[i], s[j])
    {
      assert s[j] == rest[j - 1] && s[j] in rest;
      assert i > 0 ==> s[i] == rest[i - 1];
    }
  }

  lemma AscendingDiffer(s: seq<string>)
    requires Ascending(s)
    ensures forall i, j :: 0 <= i < j < |s| ==> s[i] != s[j]
  {
    forall i, j | 0 <= i < j < |s|
      ensures s[i] != s[j]
    {
      Trichotomy(s[i], s[j]);
    }
  }

  /** The members in ascending order, each once. */
  function Sorted(keys: set<string>): (s: seq<string>)
    ensures Ascending(s) && forall k :: k in s <==> k in keys
    decreases |keys|
  {
    if keys == {} then []
    else
      LeastExists(keys);
      var k :| k in keys && Least(k, keys);
      var rest := Sorted(keys - {k});
      LeastFirst(k, keys, rest);
      [k] + rest
  }

  // ---------------------------------------------------------------- header names

  predicate Token(c: char) {
    'a' <= c <= 'z' || 'A' <= c <= 'Z' || IsDigit(c) || c in "!#$%&'*+-.^_`|~"
  }

  function Upper(c: char): char {
    if 'a' <= c <= 'z' then c - 'a' + 'A' else c
  }

  function Cased(s: string, upper: bool): string {
    if s == "" then ""
    else
      var c := if upper then Upper(s[0]) else Lower(s[0]);
      [c] + Cased(s[1..], c == '-')
  }

  /** A header name's canonical form: each of its words capitalized, unless it is no header name. */
  function Canonical(s: string): string {
    if forall i :: 0 <= i < |s| ==> Token(s[i]) then Cased(s, true) else s
  }

  lemma {:induction false} CasedKeeps(s: string, upper: bool)
    ensures Cased(Cased(s, upper), upper) == Cased(s, upper)
    ensures |Cased(s, upper)| == |s|
    ensures forall i :: 0 <= i < |s| ==> Token(s[i]) ==> Token(Cased(s, upper)[i])
  {
    if s != "" {
      var c := if upper then Upper(s[0]) else Lower(s[0]);
      CasedKeeps(s[1..], c == '-');
      assert Cased(s, upper)[1..] == Cased(s[1..], c == '-');
      assert (if upper then Upper(c) else Lower(c)) == c;
    }
  }

  /** A canonical name is as long as the name it is made from, made of tokens if that is, and canonical. */
  lemma CanonicalKeeps(s: string)
    ensures Canonical(Canonical(s)) == Canonical(s) && |Canonical(s)| == |s|
    ensures Canonical(s) == s || forall c :: c in Canonical(s) ==> Token(c)
  {
    CasedKeeps(s, true);
    hide Cased;
    var t := Cased(s, true);
    if forall i :: 0 <= i < |s| ==> Token(s[i]) {
      assert forall c :: c in t ==> Token(c);
    }
  }
}
