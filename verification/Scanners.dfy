/** The scanner itself: every read is inside the document and every scan comes to an end
    (internal/proto/graphql/scan.go, internal/proto/graphql/value.go). */
module Scanners {
  import opened Options
  import opened Decimals
  import opened Texts
  import opened Literals
  import opened Documents

  /** What was read so far and what is read from here make up the whole. */
  ghost predicate Completes(text: string, rest: Option<(string, nat)>, all: Option<(string, nat)>) {
    Then(text, rest) == all
  }

  lemma CompleteStep(text: string, more: string, rest: Option<(string, nat)>, all: Option<(string, nat)>)
    requires Completes(text, Then(more, rest), all)
    ensures Completes(text + more, rest, all)
  {
    if rest.Some? {
      assert text + (more + rest.value.0) == text + more + rest.value.0;
    }
  }

  lemma CompleteStart(all: Option<(string, nat)>)
    ensures Completes("", all, all)
  {
    if all.Some? {
      assert "" + all.value.0 == all.value.0;
    }
  }

  lemma CompleteEnd(text: string, rest: Option<(string, nat)>, all: Option<(string, nat)>)
    requires Completes(text, rest, all)
    ensures rest.None? ==> all.None?
    ensures rest.Some? && rest.value.0 == "" ==> all == Some((text, rest.value.1))
  {
    assert text + "" == text;
  }

  class Scanner {
    const q: string
    const lib: Library
    var i: nat

    constructor (lib: Library, q: string)
      ensures this.lib == lib && this.q == q && i == 0
    {
      this.lib, this.q, i := lib, q, 0;
    }

    method SkipComment()
      requires i < |q| && q[i] == '#'
      modifies this
      ensures i == SkipTo(q, old(i) + 1, '\n')
    {
      i := i + 1;
      while i < |q| && q[i] != '\n'
        invariant i <= |q| && SkipTo(q, i, '\n') == SkipTo(q, old(i) + 1, '\n')
      {
        i := i + 1;
      }
    }

    method SkipIgnored()
      requires i <= |q|
      modifies this
      ensures i == Skip(q, old(i))
    {
      while i < |q|
        invariant i <= |q| && Skip(q, i) == Skip(q, old(i))
      {
        if q[i] == ' ' || q[i] == '\t' || q[i] == '\n' || q[i] == '\r' || q[i] == ',' {
          i := i + 1;
        } else if q[i] == '#' {
          SkipComment();
        } else {
          return;
        }
      }
    }

    method PassString()
      modifies this
      ensures i == SkipString(q, old(i))
    {
      if i + 2 < |q| && q[i..i + 3] == TRIPLE {
        PassBlockString();
      } else {
        PassQuoted();
      }
    }

    method PassBlockString()
      modifies this
      ensures i == BlockEnd(q, old(i) + 3) + 3
    {
      i := i + 3;
      while i + 2 < |q| && q[i..i + 3] != TRIPLE
        invariant BlockEnd(q, i) == BlockEnd(q, old(i) + 3)
        decreases |q| - i
      {
        if q[i] == '\\' {
          i := i + 1;
        }
        i := i + 1;
      }
      i := i + 3;
    }

    method PassQuoted()
      modifies this
      ensures i == QuoteEnd(q, old(i) + 1) + 1
    {
      i := i + 1;
      while i < |q| && q[i] != '"'
        invariant QuoteEnd(q, i) == QuoteEnd(q, old(i) + 1)
        decreases |q| - i
      {
        if q[i] == '\\' {
          i := i + 1;
        }
        i := i + 1;
      }
      i := i + 1;
    }

    method Name() returns (name: string)
      requires i <= |q|
      modifies this
      ensures i == NameEnd(q, old(i)) && name == q[old(i)..i] && (name == "" <==> i == old(i))
    {
      var start := i;
      while i < |q| && NameByte(q[i], i == start)
        invariant start <= i <= |q|
        invariant if i == start then NameEnd(q, i) == NameEnd(q, start) else NameRest(q, i) == NameEnd(q, start)
      {
        i := i + 1;
      }
      name := q[start..i];
    }

    method FindSelectionSet() returns (found: bool)
      modifies this
      ensures var inside := ToSelectionSet(q, old(i), 0); found == inside.Some? && (found ==> i == inside.value)
    {
      var depth := 0;
      while i < |q|
        invariant ToSelectionSet(q, i, depth) == ToSelectionSet(q, old(i), 0)
        decreases |q| - i
      {
        if q[i] == '"' {
          PassString();
          continue;
        }
        if q[i] == '#' {
          SkipComment();
        } else if q[i] == '(' {
          depth := depth + 1;
        } else if q[i] == ')' {
          if depth > 0 {
            depth := depth - 1;
          }
        } else if q[i] == '{' && depth == 0 {
          i := i + 1;
          return true;
        }
        i := i + 1;
      }
      found := false;
    }

    method PassBlock() returns (found: bool)
      modifies this
      ensures var after := SkipBlock(q, old(i), 1); found == after.Some? && (found ==> i == after.value)
    {
      var depth := 1;
      while i < |q|
        invariant depth > 0 && SkipBlock(q, i, depth) == SkipBlock(q, old(i), 1)
        decreases |q| - i
      {
        if q[i] == '"' {
          PassString();
          continue;
        }
        if q[i] == '#' {
          SkipComment();
        } else if q[i] == '{' {
          depth := depth + 1;
        } else if q[i] == '}' {
          if depth == 1 {
            i := i + 1;
            return true;
          }
          depth := depth - 1;
        }
        i := i + 1;
      }
      found := false;
    }

    method FindFragment(want: string) returns (found: bool)
      modifies this
      ensures var inside := SeekFragment(q, want, 0);
        found == inside.Some? && i == if found then inside.value else old(i)
    {
      var k := 0;
      while k + 8 <= |q|
        invariant i == old(i) && SeekFragment(q, want, k) == SeekFragment(q, want, 0)
      {
        if q[k..k + 8] != FRAGMENT || (k > 0 && NameByte(q[k - 1], false)) {
          k := k + 1;
          continue;
        }
        var probe := new Scanner(lib, q);
        probe.i := k + 8;
        if probe.i < |q| && NameByte(q[probe.i], false) {
          k := k + 1;
          continue;
        }
        probe.SkipIgnored();
        var name := probe.Name();
        if name != want {
          k := k + 1;
          continue;
        }
        found := probe.FindSelectionSet();
        if found {
          i := probe.i;
        }
        return;
      }
      found := false;
    }

    // -------------------------------------------------------------- literals

    method StringValue() returns (v: Option<Value>)
      requires i < |q| && q[i] == '"'
      modifies this
      ensures match ReadString(lib, q, old(i)) case None => v.None? case Some(r) => v == Some(r.0) && i == r.1
    {
      hide ReadQuoted, ReadBlock;
      if i + 2 < |q| && q[i..i + 3] == TRIPLE {
        i := i + 3;
        var block := BlockText();
        return if block.None? then None else Some(Str(lib.trim(block.value)));
      }
      i := i + 1;
      var text := QuotedText();
      v := if text.None? then None else Some(Str(text.value));
    }

    /** The rest of a string, its opening quote taken. */
    method QuotedText() returns (text: Option<string>)
      modifies this
      ensures match ReadQuoted(q, old(i)) case None => text.None? case Some(r) => text == Some(r.0) && i == r.1
    {
      hide Completes, Utf8, Unescaped, ReadEscape;
      var b := "";
      ghost var all := ReadQuoted(q, i);
      CompleteStart(all);
      while i < |q|
        invariant Completes(b, ReadQuoted(q, i), all)
        decreases |q| - i
      {
        CompleteEnd(b, ReadQuoted(q, i), all);
        var c := q[i];
        if c == '"' {
          i := i + 1;
          return Some(b);
        } else if c != '\\' {
          CompleteStep(b, [c], ReadQuoted(q, i + 1), all);
          b, i := b + [c], i + 1;
        } else {
          i := i + 1;
          if i >= |q| {
            return None;
          }
          var e := q[i];
          if e != 'u' {
            CompleteStep(b, [Unescaped(e)], ReadQuoted(q, i + 1), all);
            b, i := b + [Unescaped(e)], i + 1;
          } else {
            var r := UnicodeEscape();
            if r.None? {
              return None;
            }
            CompleteStep(b, Utf8(r.value), ReadQuoted(q, i), all);
            b := b + Utf8(r.value);
          }
        }
      }
      CompleteEnd(b, ReadQuoted(q, i), all);
      text := None;
    }

    method UnicodeEscape() returns (r: Option<nat>)
      requires i < |q| && q[i] == 'u'
      modifies this
      ensures match ReadEscape(q, old(i) + 1) case None => r.None? case Some(e) => r == Some(e.0) && i == e.1
      ensures r.Some? ==> r.value < 0x110000
    {
      i := i + 1;
      if i + 4 > |q| {
        return None;
      }
      var v := HexNumber(q[i..i + 4]);
      if v.None? {
        return None;
      }
      HexBound(q[i..i + 4]);
      i := i + 4;
      if !Surrogate(v.value) {
        return v;
      }
      if i + 6 <= |q| && q[i] == '\\' && q[i + 1] == 'u' {
        assert q[i..i + 2] == "\\u";
        var low := HexNumber(q[i + 2..i + 6]);
        if low.Some? {
          var pair := DecodePair(v.value, low.value);
          if pair != REPLACEMENT {
            i := i + 6;
            return Some(pair);
          }
        }
      } else if At(q, i, "\\u") {
        AtChar(q, i, "\\u", 0);
        AtChar(q, i, "\\u", 1);
      }
      r := Some(REPLACEMENT);
    }

    /** The rest of a block string, its opening quotes taken. */
    method BlockText() returns (text: Option<string>)
      modifies this
      ensures match ReadBlock(q, old(i)) case None => text.None? case Some(r) => text == Some(r.0) && i == r.1
    {
      hide Completes;
      var b := "";
      ghost var all := ReadBlock(q, i);
      CompleteStart(all);
      while i < |q|
        invariant Completes(b, ReadBlock(q, i), all)
        decreases |q| - i
      {
        CompleteEnd(b, ReadBlock(q, i), all);
        if i + 2 < |q| && q[i..i + 3] == TRIPLE {
          i := i + 3;
          return Some(b);
        }
        if i + 3 < |q| && q[i..i + 4] == "\\" + TRIPLE {
          CompleteStep(b, TRIPLE, ReadBlock(q, i + 4), all);
          b, i := b + TRIPLE, i + 4;
          continue;
        }
        CompleteStep(b, [q[i]], ReadBlock(q, i + 1), all);
        b, i := b + [q[i]], i + 1;
      }
      CompleteEnd(b, ReadBlock(q, i), all);
      text := None;
    }

    method NumberValue() returns (v: Option<Value>)
      requires i <= |q|
      modifies this
      ensures match ReadNumber(lib, q, old(i)) case None => v.None? case Some(r) => v == Some(r.0) && i == r.1
    {
      hide Marked, NumberOf, NumberEnd;
      var start := i;
      if i < |q| && (q[i] == '-' || q[i] == '+') {
        i := i + 1;
        MarkPassed(q, start, i);
      }
      NoMark(q, start);
      var float := PassNumber(start);
      v := NumberText(q[start..i], float);
    }

    /** A number's digits and marks, its sign taken. */
    method PassNumber(start: nat) returns (float: bool)
      requires start <= i <= |q| && !Marked(q[start..i])
      modifies this
      ensures i == NumberEnd(q, old(i)) && float == Marked(q[start..i])
    {
      hide Marked;
      float := false;
      while i < |q|
        invariant old(i) <= i <= |q| && NumberEnd(q, i) == NumberEnd(q, old(i))
        invariant float == Marked(q[start..i])
      {
        var c := q[i];
        MarkPassed(q, start, i + 1);
        if IsDigit(c) {
          i := i + 1;
        } else if c == '.' || c == 'e' || c == 'E' {
          float := true;
          i := i + 1;
        } else if (c == '-' || c == '+') && i > 0 && (q[i - 1] == 'e' || q[i - 1] == 'E') {
          i := i + 1;
        } else {
          break;
        }
      }
    }

    /** What a number's text stands for. */
    method NumberText(text: string, float: bool) returns (v: Option<Value>)
      requires float == Marked(text)
      ensures v == NumberOf(lib, text)
    {
      if text == "" || text == "-" || text == "+" {
        return None;
      }
      if !float {
        var n := Atoi(text);
        if n.Some? && MIN_INT64 <= n.value <= MAX_INT64 {
          return Some(Int64(n.value));
        }
      }
      v := if lib.floats(text) then Some(Float(text)) else None;
    }

    // -------------------------------------------------------------- values

    /** A member's name, and the colon after it if there is one. */
    method NameAndColon() returns (name: string)
      requires i <= |q|
      modifies this
      ensures var end := NameEnd(q, old(i));
        && name == q[old(i)..end] && (name == "" <==> end == old(i))
        && i == if name == "" then end else PastColon(q, end)
    {
      hide Skip, NameEnd;
      name := Name();
      if name == "" {
        return;
      }
      SkipIgnored();
      if i < |q| && q[i] == ':' {
        i := i + 1;
      }
    }

    method ParseValue(depth: nat) returns (v: Option<Value>)
      requires i <= |q|
      modifies this
      ensures match ReadValue(lib, q, old(i), depth) case None => v.None? case Some(r) => v == Some(r.0) && i == r.1
      decreases |q| - i, 0
    {
      if depth > MAX_DEPTH {
        return None;
      }
      SkipIgnored();
      if i >= |q| {
        return None;
      }
      var c := q[i];
      if c == '$' {
        i := i + 1;
        var name := Name();
        return if name == "" then None else Some(Variable(name));
      } else if c == '"' {
        v := StringValue();
      } else if c == '[' {
        i := i + 1;
        v := ParseItems(depth);
      } else if c == '{' {
        i := i + 1;
        v := ParseFields(depth);
      } else if c == '-' || IsDigit(c) {
        v := NumberValue();
      } else {
        var word := Name();
        return if word == "" then None else Some(WordOf(word));
      }
    }

    method ParseItems(depth: nat) returns (v: Option<Value>)
      requires i <= |q|
      modifies this
      ensures match ReadItems(lib, q, old(i), depth, [])
        case None => v.None?
        case Some(r) => v == Some(List(r.0)) && i == r.1
      decreases |q| - i, 1
    {
      var list := [];
      while true
        invariant old(i) <= i <= |q| && ReadItems(lib, q, i, depth, list) == ReadItems(lib, q, old(i), depth, [])
        decreases |q| - i
      {
        SkipIgnored();
        if i >= |q| {
          return None;
        }
        if q[i] == ']' {
          i := i + 1;
          return Some(List(list));
        }
        var item := ParseValue(depth + 1);
        if item.None? {
          return None;
        }
        list := list + [item.value];
      }
    }

    method ParseFields(depth: nat) returns (v: Option<Value>)
      requires i <= |q|
      modifies this
      ensures match ReadFields(lib, q, old(i), depth, map[])
        case None => v.None?
        case Some(r) => v == Some(Object(r.0)) && i == r.1
      decreases |q| - i, 1
    {
      hide ReadValue, ReadItems, Skip, NameEnd, Ignored, PastColon;
      var obj := map[];
      while true
        invariant old(i) <= i <= |q| && ReadFields(lib, q, i, depth, obj) == ReadFields(lib, q, old(i), depth, map[])
        decreases |q| - i
      {
        SkipIgnored();
        if i >= |q| {
          return None;
        }
        if q[i] == '}' {
          i := i + 1;
          return Some(Object(obj));
        }
        var name := NameAndColon();
        if name == "" {
          return None;
        }
        var member := ParseValue(depth + 1);
        if member.None? {
          return None;
        }
        obj := obj[name := member.value];
      }
    }

    method ParseArguments() returns (args: Option<Arguments>, ok: bool)
      requires i <= |q|
      modifies this
      ensures
        if old(i) >= |q| || q[old(i)] != '(' then args.None? && ok
        else args == ReadArguments(lib, q, old(i) + 1, map[]) && ok == args.Some?
    {
      if i >= |q| || q[i] != '(' {
        return None, true;
      }
      hide ReadArguments, ReadValue, Skip, NameEnd, Ignored, PastColon;
      i := i + 1;
      var read: Arguments := map[];
      while true
        invariant old(i) < i <= |q| && ReadArguments(lib, q, i, read) == ReadArguments(lib, q, old(i) + 1, map[])
        decreases |q| - i
      {
        ArgumentStep(lib, q, i, read);
        SkipIgnored();
        if i >= |q| {
          return None, false;
        }
        if q[i] == ')' {
          i := i + 1;
          return Some(read), true;
        }
        var name := NameAndColon();
        if name == "" {
          return None, false;
        }
        SkipIgnored();
        var v := ParseValue(0);
        if v.None? {
          return None, false;
        }
        read := read[name := v.value];
      }
    }

    // -------------------------------------------------------------- fields

    /** Into what a spread names, its three dots taken. */
    method FollowSpread() returns (found: bool)
      requires i <= |q|
      modifies this
      ensures var inside := SpreadTarget(q, old(i)); found == inside.Some? && (found ==> i == inside.value)
    {
      hide Skip, NameEnd, SeekFragment, ToSelectionSet;
      SkipIgnored();
      var word := Name();
      if word == "on" {
        SkipIgnored();
        var typeCondition := Name();
        found := FindSelectionSet();
      } else if word == "" {
        found := FindSelectionSet();
      } else {
        found := FindFragment(word);
      }
    }

    method ParseField() returns (f: Field)
      requires i <= |q|
      modifies this
      ensures f == FieldAt(lib, q, old(i))
    {
      hide ReadArguments, Skip, NameEnd;
      var name := Name();
      if name == "" {
        return UNKNOWN;
      }
      SkipIgnored();
      if i < |q| && q[i] == ':' {
        i := i + 1;
        SkipIgnored();
        name := Name();
        if name == "" {
          return UNKNOWN;
        }
        SkipIgnored();
      }
      var args, ok := ParseArguments();
      f := Field(name, args, !ok);
    }

    method ParseSelection(depth: nat) returns (f: Field)
      requires i <= |q|
      modifies this
      ensures f == Selection(lib, q, old(i), depth)
      decreases MAX_SPREADS + 1 - depth
    {
      hide FieldAt, SpreadTarget, Skip;
      if depth > MAX_SPREADS {
        return UNKNOWN;
      }
      SkipIgnored();
      if i + 2 < |q| && q[i..i + 3] == SPREAD {
        i := i + 3;
        var found := FollowSpread();
        if !found {
          return UNKNOWN;
        }
        f := ParseSelection(depth + 1);
        return;
      }
      f := ParseField();
    }
  }

  /** One turn of the loop over a field's arguments. */
  lemma ArgumentStep(lib: Library, s: string, p: nat, read: Arguments)
    requires p <= |s|
    ensures var q := Skip(s, p);
      ReadArguments(lib, s, p, read) ==
      if q >= |s| then None
      else if s[q] == ')' then Some(read)
      else
        var end := NameEnd(s, q);
        if end == q then None
        else
          var v := ReadValue(lib, s, Skip(s, PastColon(s, end)), 0);
          if v.None? then None else ReadArguments(lib, s, v.value.1, read[s[q..end] := v.value.0])
  {
    hide ReadValue, Skip, NameEnd;
  }

  lemma NoMark(s: string, start: nat)
    requires start <= |s|
    ensures !Marked(s[start..start])
  {
  }

  lemma MarkPassed(s: string, start: nat, end: nat)
    requires start < end <= |s|
    ensures Marked(s[start..end]) <==> Marked(s[start..end - 1]) || FloatMark(s[end - 1])
    ensures end == start + 1 ==> (Marked(s[start..end]) <==> FloatMark(s[start]))
  {
    var t := s[start..end];
    var before := t[..|t| - 1];
    assert before == s[start..end - 1];
    if Marked(before) {
      var k :| 0 <= k < |before| && FloatMark(before[k]);
      assert FloatMark(t[k]);
    }
    if FloatMark(s[end - 1]) {
      assert FloatMark(t[|t| - 1]);
    }
    if Marked(t) {
      var k :| 0 <= k < |t| && FloatMark(t[k]);
      assert k < |before| ==> FloatMark(before[k]);
    }
  }

  /** The field a document selects, whatever the document. */
  method FindRootField(lib: Library, q: string) returns (f: Field)
    ensures f == RootField(lib, q, 0)
  {
    hide Selection, ToSelectionSet, SkipBlock, Skip, NameEnd;
    var s := new Scanner(lib, q);
    while true
      invariant s.q == q && s.lib == lib && s.i <= |q| && RootField(lib, q, s.i) == RootField(lib, q, 0)
      decreases |q| - s.i
    {
      s.SkipIgnored();
      if s.i >= |q| {
        return UNKNOWN;
      }
      if q[s.i] == '{' {
        s.i := s.i + 1;
        f := s.ParseSelection(0);
        return;
      }
      var word := s.Name();
      if word in OPERATIONS {
        var inside := s.FindSelectionSet();
        if !inside {
          return UNKNOWN;
        }
        f := s.ParseSelection(0);
        return;
      } else if word == FRAGMENT {
        var inside := s.FindSelectionSet();
        if !inside {
          return UNKNOWN;
        }
        var after := s.PassBlock();
        if !after {
          return UNKNOWN;
        }
      } else {
        return UNKNOWN;
      }
    }
  }
}
