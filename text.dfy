/**
 * The string primitives the core relies on: Go's strings.TrimSpace,
 * strings.Fields and strings.Split, and JavaScript's String.prototype.trim.
 * Trimming and field splitting are written once and take the whitespace
 * class as a parameter, because Go and JavaScript do not agree on it.
 */
module Text {

  /** Go's unicode.IsSpace (the Unicode White_Space property), used by
      strings.TrimSpace and strings.Fields. */
  predicate IsGoSpace(c: char) {
    ('\t' <= c <= '\r') || c == ' ' || c == '\U{0085}' || c == '\U{00A0}'
    || c == '\U{1680}' || ('\U{2000}' <= c <= '\U{200A}')
    || c == '\U{2028}' || c == '\U{2029}' || c == '\U{202F}'
    || c == '\U{205F}' || c == '\U{3000}'
  }

  /** ECMAScript's WhiteSpace and LineTerminator code points, which
      String.prototype.trim removes. Unlike Go it includes U+FEFF and
      excludes U+0085. */
  predicate IsJsSpace(c: char) {
    ('\t' <= c <= '\r') || c == ' ' || c == '\U{00A0}'
    || c == '\U{1680}' || ('\U{2000}' <= c <= '\U{200A}')
    || c == '\U{2028}' || c == '\U{2029}' || c == '\U{202F}'
    || c == '\U{205F}' || c == '\U{3000}' || c == '\U{FEFF}'
  }

  /** The two classes differ in exactly two code points. */
  lemma GoAndJsSpace(c: char)
    ensures IsJsSpace(c) <==> (IsGoSpace(c) && c != '\U{0085}') || c == '\U{FEFF}'
  {
  }

  /** Every character of `s` is whitespace. */
  predicate AllSpace(s: string, sp: char -> bool) {
    forall i :: 0 <= i < |s| ==> sp(s[i])
  }

  /** No character of `s` is whitespace. */
  predicate NoSpace(s: string, sp: char -> bool) {
    forall i :: 0 <= i < |s| ==> !sp(s[i])
  }

  /** `t` is `s` with nothing that could still be trimmed at either end. */
  predicate Trimmed(t: string, sp: char -> bool) {
    t != [] ==> !sp(t[0]) && !sp(t[|t| - 1])
  }

  /** Removes the leading whitespace. */
  function TrimLeft(s: string, sp: char -> bool): (r: string)
    ensures |r| <= |s| && r == s[|s| - |r|..]
    ensures AllSpace(s[..|s| - |r|], sp)
    ensures r != [] ==> !sp(r[0])
  {
    if s != [] && sp(s[0]) then TrimLeft(s[1..], sp) else s
  }

  /** Removes the trailing whitespace. */
  function TrimRight(s: string, sp: char -> bool): (r: string)
    ensures |r| <= |s| && r == s[..|r|]
    ensures AllSpace(s[|r|..], sp)
    ensures r != [] ==> !sp(r[|r| - 1])
  {
    if s != [] && sp(s[|s| - 1]) then TrimRight(s[..|s| - 1], sp) else s
  }

  /** strings.TrimSpace (with IsGoSpace) and String.prototype.trim (with
      IsJsSpace). The result neither starts nor ends with whitespace;
      TrimShape and TrimUnique below say what else it is. */
  function Trim(s: string, sp: char -> bool): (r: string)
    ensures |r| <= |s| && Trimmed(r, sp)
  {
    var l := TrimLeft(s, sp);
    var r := TrimRight(l, sp);
    assert Trimmed(r, sp) by {
      if r != [] { assert r[0] == l[0]; }
    }
    r
  }

  /** `s` is some whitespace, then the result of Trim, then some whitespace. */
  lemma {:induction false} TrimShape(s: string, sp: char -> bool)
    ensures exists a, b :: s == a + Trim(s, sp) + b && AllSpace(a, sp) && AllSpace(b, sp)
  {
    var l := TrimLeft(s, sp);
    var r := TrimRight(l, sp);
    TrimLeftParts(s, sp);
    TrimRightParts(l, sp);
    ShapeWitness(s, s[..|s| - |l|], r, l[|r|..], sp);
  }

  lemma {:induction false} TrimLeftParts(s: string, sp: char -> bool)
    ensures var l := TrimLeft(s, sp); s == s[..|s| - |l|] + l && AllSpace(s[..|s| - |l|], sp)
  {
    TakeDrop(s, |s| - |TrimLeft(s, sp)|);
  }

  lemma {:induction false} TrimRightParts(l: string, sp: char -> bool)
    ensures var r := TrimRight(l, sp); l == r + l[|r|..] && AllSpace(l[|r|..], sp)
  {
    TakeDrop(l, |TrimRight(l, sp)|);
  }

  lemma {:induction false} ShapeWitness(s: string, a: string, r: string, b: string, sp: char -> bool)
    requires s == a + (r + b) && AllSpace(a, sp) && AllSpace(b, sp) && r == Trim(s, sp)
    ensures exists a, b :: s == a + Trim(s, sp) + b && AllSpace(a, sp) && AllSpace(b, sp)
  {
    assert a + (r + b) == a + r + b;
  }

  /** The characterisation of Trim is complete: whichever way `s` splits
      into leading whitespace, a trimmed middle and trailing whitespace,
      Trim returns that middle. */
  lemma {:induction false} TrimUnique(a: string, t: string, b: string, sp: char -> bool)
    requires AllSpace(a, sp) && AllSpace(b, sp) && Trimmed(t, sp)
    ensures Trim(a + t + b, sp) == t
  {
    if t == [] {
      TrimUniqueBlank(a, b, sp);
      assert a + t + b == a + b;
    } else {
      TrimUniqueWord(a, t, b, sp);
    }
  }

  lemma {:induction false} TrimUniqueBlank(a: string, b: string, sp: char -> bool)
    requires AllSpace(a, sp) && AllSpace(b, sp)
    ensures Trim(a + b, sp) == []
  {
    AllSpaceAppend(a, b, sp);
    TrimOfSpaces(a + b, sp);
  }

  lemma {:induction false} TrimUniqueWord(a: string, t: string, b: string, sp: char -> bool)
    requires AllSpace(a, sp) && AllSpace(b, sp) && t != [] && Trimmed(t, sp)
    ensures Trim(a + t + b, sp) == t
  {
    calc {
      Trim(a + t + b, sp);
      { assert a + t + b == a + (t + b); }
      Trim(a + (t + b), sp);
      TrimRight(TrimLeft(a + (t + b), sp), sp);
      { assert (t + b)[0] == t[0]; TrimLeftOfSpaces(a, t + b, sp); }
      TrimRight(t + b, sp);
      { TrimRightOfSpaces(t, b, sp); }
      t;
    }
  }

  lemma {:induction false} AllSpaceAppend(a: string, b: string, sp: char -> bool)
    requires AllSpace(a, sp) && AllSpace(b, sp)
    ensures AllSpace(a + b, sp)
  {
    forall k | 0 <= k < |a + b| ensures sp((a + b)[k]) {
      if k < |a| { assert (a + b)[k] == a[k]; } else { assert (a + b)[k] == b[k - |a|]; }
    }
  }

  lemma {:induction false} TrimLeftOfSpaces(a: string, u: string, sp: char -> bool)
    requires AllSpace(a, sp) && (u != [] ==> !sp(u[0]))
    ensures TrimLeft(a + u, sp) == u
  {
    if a != [] {
      assert (a + u)[1..] == a[1..] + u;
      TrimLeftOfSpaces(a[1..], u, sp);
    }
  }

  lemma {:induction false} TrimRightOfSpaces(t: string, b: string, sp: char -> bool)
    requires AllSpace(b, sp) && (t != [] ==> !sp(t[|t| - 1]))
    ensures TrimRight(t + b, sp) == t
  {
    if b != [] {
      var s := t + b;
      assert s[..|s| - 1] == t + b[..|b| - 1];
      TrimRightOfSpaces(t, b[..|b| - 1], sp);
    }
  }

  /** The result of Trim is empty exactly when the input is all whitespace. */
  lemma {:induction false} TrimEmptyIff(s: string, sp: char -> bool)
    ensures Trim(s, sp) == [] <==> AllSpace(s, sp)
  {
    if Trim(s, sp) == [] {
      TrimEmptyOnlyOfSpaces(s, sp);
    }
    if AllSpace(s, sp) {
      TrimOfSpaces(s, sp);
    }
  }

  lemma {:induction false} TrimEmptyOnlyOfSpaces(s: string, sp: char -> bool)
    requires Trim(s, sp) == []
    ensures AllSpace(s, sp)
  {
    var l := TrimLeft(s, sp);
    assert TrimRight(l, sp) == [];
    assert s == s[..|s| - |l|] + l;
    assert AllSpace(l, sp) by {
      assert l[0..] == l;
    }
    AllSpaceAppend(s[..|s| - |l|], l, sp);
  }

  lemma {:induction false} TrimOfSpaces(s: string, sp: char -> bool)
    requires AllSpace(s, sp)
    ensures Trim(s, sp) == []
  {
    assert s + [] == s;
    TrimLeftOfSpaces(s, [], sp);
  }

  /** The longest prefix of `s` that holds no whitespace. */
  function Word(s: string, sp: char -> bool): (w: string)
    ensures w <= s && NoSpace(w, sp)
    ensures |w| < |s| ==> sp(s[|w|])
    ensures s != [] && !sp(s[0]) ==> w != []
  {
    if s == [] || sp(s[0]) then [] else [s[0]] + Word(s[1..], sp)
  }

  /** strings.Fields (with IsGoSpace): the maximal runs of non-whitespace
      characters, in order. Every field is non-empty and holds no
      whitespace; FieldsConcat below says no other character is lost. */
  function Fields(s: string, sp: char -> bool): (r: seq<string>)
    ensures forall k :: 0 <= k < |r| ==> r[k] != [] && NoSpace(r[k], sp)
    decreases |s|
  {
    if s == [] then []
    else if sp(s[0]) then Fields(s[1..], sp)
    else
      var w := Word(s, sp);
      [w] + Fields(s[|w|..], sp)
  }

  /** The characters that are not whitespace, in order. */
  function NonSpace(s: string, sp: char -> bool): string {
    if s == [] then [] else (if sp(s[0]) then [] else [s[0]]) + NonSpace(s[1..], sp)
  }

  function Concat(parts: seq<string>): string {
    if parts == [] then [] else parts[0] + Concat(parts[1..])
  }

  lemma {:induction false} NonSpaceAppend(a: string, b: string, sp: char -> bool)
    ensures NonSpace(a + b, sp) == NonSpace(a, sp) + NonSpace(b, sp)
  {
    if a == [] {
      assert a + b == b;
    } else {
      assert (a + b)[0] == a[0];
      assert (a + b)[1..] == a[1..] + b;
      NonSpaceAppend(a[1..], b, sp);
    }
  }

  lemma {:induction false} NonSpaceOfWord(w: string, sp: char -> bool)
    requires NoSpace(w, sp)
    ensures NonSpace(w, sp) == w
  {
    if w != [] { NonSpaceOfWord(w[1..], sp); }
  }

  /** Concatenating the fields gives back exactly the non-whitespace
      characters of the input: Fields drops whitespace and nothing else. */
  lemma {:induction false} FieldsConcat(s: string, sp: char -> bool)
    ensures Concat(Fields(s, sp)) == NonSpace(s, sp)
    decreases |s|
  {
    if s != [] {
      if sp(s[0]) {
        FieldsConcat(s[1..], sp);
      } else {
        var w := Word(s, sp);
        var rest := s[|w|..];
        FieldsConcat(rest, sp);
        calc {
          Concat(Fields(s, sp));
          { assert ([w] + Fields(rest, sp))[1..] == Fields(rest, sp); }
          w + NonSpace(rest, sp);
          { NonSpaceOfWord(w, sp); }
          NonSpace(w, sp) + NonSpace(rest, sp);
          { NonSpaceAppend(w, rest, sp); }
          NonSpace(w + rest, sp);
          { assert s == w + rest; }
          NonSpace(s, sp);
        }
      }
    }
  }

  /** Whitespace after the last field does not change the fields. */
  lemma {:induction false} FieldsTrailingSpace(t: string, b: string, sp: char -> bool)
    requires AllSpace(b, sp)
    ensures Fields(t + b, sp) == Fields(t, sp)
    decreases |t| + |b|
  {
    if t == [] {
      assert t + b == b;
      if b != [] {
        FieldsTrailingSpace([], b[1..], sp);
        assert [] + b[1..] == b[1..];
      }
    } else {
      assert (t + b)[0] == t[0];
      if sp(t[0]) {
        assert (t + b)[1..] == t[1..] + b;
        FieldsTrailingSpace(t[1..], b, sp);
      } else {
        var w := Word(t, sp);
        WordBeforeSpaces(t, b, sp);
        assert (t + b)[|w|..] == t[|w|..] + b;
        FieldsTrailingSpace(t[|w|..], b, sp);
      }
    }
  }

  lemma {:induction false} WordBeforeSpaces(l: string, b: string, sp: char -> bool)
    requires AllSpace(b, sp)
    ensures Word(l + b, sp) == Word(l, sp)
  {
    if l == [] {
      assert l + b == b;
    } else if !sp(l[0]) {
      assert (l + b)[1..] == l[1..] + b;
      WordBeforeSpaces(l[1..], b, sp);
    }
  }

  /** Leading whitespace does not change the fields. */
  lemma {:induction false} FieldsLeadingSpace(a: string, t: string, sp: char -> bool)
    requires AllSpace(a, sp)
    ensures Fields(a + t, sp) == Fields(t, sp)
  {
    if a == [] {
      assert a + t == t;
    } else {
      assert (a + t)[1..] == a[1..] + t;
      FieldsLeadingSpace(a[1..], t, sp);
    }
  }

  /** Fields undoes joining non-empty, whitespace-free words with a
      whitespace separator. */
  lemma {:induction false} FieldsOfJoin(parts: seq<string>, c: char, sp: char -> bool)
    requires |parts| >= 1 && sp(c)
    requires forall k :: 0 <= k < |parts| ==> parts[k] != [] && NoSpace(parts[k], sp)
    ensures Fields(Join(parts, c), sp) == parts
  {
    var p := parts[0];
    if |parts| == 1 {
      WordWhole(p, sp);
      assert p[|p|..] == [];
    } else {
      var tail := Join(parts[1..], c);
      var s := p + ([c] + tail);
      assert Join(parts, c) == s;
      WordBeforeSeparator(p, c, tail, sp);
      assert s[|p|..] == [c] + tail;
      FieldsLeadingSpace([c], tail, sp);
      FieldsOfJoin(parts[1..], c, sp);
      assert [p] + parts[1..] == parts;
    }
  }

  /** A single word is one field. */
  lemma {:induction false} FieldsOfWord(p: string, sp: char -> bool)
    requires p != [] && NoSpace(p, sp)
    ensures Fields(p, sp) == [p]
  {
    WordWhole(p, sp);
    assert p[|p|..] == [];
  }

  /** A word followed by a non-empty run of whitespace is the first field,
      however long the run: with FieldsLeadingSpace and FieldsOfWord this
      decides Fields on every input, so the fields are exactly the maximal
      runs of non-whitespace. */
  lemma {:induction false} FieldsCons(p: string, w: string, t: string, sp: char -> bool)
    requires p != [] && NoSpace(p, sp) && w != [] && AllSpace(w, sp)
    ensures Fields(p + w + t, sp) == [p] + Fields(t, sp)
  {
    var s := p + w + t;
    assert s == p + ([w[0]] + (w[1..] + t));
    WordBeforeSeparator(p, w[0], w[1..] + t, sp);
    assert s[0] == p[0];
    assert s[|p|..] == w + t;
    FieldsLeadingSpace(w, t, sp);
  }

  lemma {:induction false} WordWhole(p: string, sp: char -> bool)
    requires NoSpace(p, sp)
    ensures Word(p, sp) == p
  {
    if p != [] { WordWhole(p[1..], sp); }
  }

  lemma {:induction false} WordBeforeSeparator(p: string, c: char, x: string, sp: char -> bool)
    requires NoSpace(p, sp) && sp(c)
    ensures Word(p + ([c] + x), sp) == p
  {
    if p == [] {
      assert p + ([c] + x) == [c] + x;
    } else {
      assert (p + ([c] + x))[1..] == p[1..] + ([c] + x);
      WordBeforeSeparator(p[1..], c, x, sp);
    }
  }

  /** Splitting the trimmed string gives the same fields as splitting the
      original: trimming before strings.Fields changes nothing. */
  lemma {:induction false} FieldsOfTrim(s: string, sp: char -> bool)
    ensures Fields(Trim(s, sp), sp) == Fields(s, sp)
  {
    FieldsOfTrimLeft(s, sp);
    FieldsOfTrimRight(TrimLeft(s, sp), sp);
  }

  lemma {:induction false} FieldsOfTrimLeft(s: string, sp: char -> bool)
    ensures Fields(TrimLeft(s, sp), sp) == Fields(s, sp)
  {
    var l := TrimLeft(s, sp);
    var k := |s| - |l|;
    TakeDrop(s, k);
    FieldsLeadingSpace(s[..k], s[k..], sp);
  }

  lemma {:induction false} TakeDrop(s: string, k: nat)
    requires k <= |s|
    ensures s[..k] + s[k..] == s
  {
  }

  lemma {:induction false} FieldsOfTrimRight(l: string, sp: char -> bool)
    ensures Fields(TrimRight(l, sp), sp) == Fields(l, sp)
  {
    var r := TrimRight(l, sp);
    assert l == r + l[|r|..];
    FieldsTrailingSpace(r, l[|r|..], sp);
  }

  /** strings.Split with a one-character separator: the pieces between
      separators, so there is always at least one. */
  function Split(s: string, sep: char): (r: seq<string>)
    ensures |r| >= 1
    ensures forall k :: 0 <= k < |r| ==> sep !in r[k]
  {
    if s == [] then [[]]
    else
      var rest := Split(s[1..], sep);
      if s[0] == sep then [[]] + rest else [[s[0]] + rest[0]] + rest[1..]
  }

  /** strings.Join, the inverse of Split. */
  function Join(parts: seq<string>, sep: char): string
    requires |parts| >= 1
  {
    if |parts| == 1 then parts[0] else parts[0] + [sep] + Join(parts[1..], sep)
  }

  /** Joining the pieces gives back the input. */
  lemma {:induction false} JoinSplit(s: string, sep: char)
    ensures Join(Split(s, sep), sep) == s
  {
    if s != [] {
      JoinSplit(s[1..], sep);
      var rest := Split(s[1..], sep);
      if s[0] != sep {
        if |rest| > 1 {
          assert ([[s[0]] + rest[0]] + rest[1..])[1..] == rest[1..];
        }
      }
    }
  }

  /** Splitting pieces that hold no separator gives back the pieces. */
  lemma {:induction false} SplitJoin(parts: seq<string>, sep: char)
    requires |parts| >= 1
    requires forall k :: 0 <= k < |parts| ==> sep !in parts[k]
    ensures Split(Join(parts, sep), sep) == parts
  {
    if |parts| == 1 {
      SplitNoSep(parts[0], sep);
    } else {
      SplitJoin(parts[1..], sep);
      var tail := Join(parts[1..], sep);
      SplitPrefix(parts[0], [sep] + tail, sep);
      assert Join(parts, sep) == parts[0] + ([sep] + tail);
      assert ([sep] + tail)[1..] == tail;
      assert Split([sep] + tail, sep) == [[]] + parts[1..];
      assert parts[0] + [] == parts[0];
      assert [parts[0]] + parts[1..] == parts;
    }
  }

  lemma {:induction false} SplitNoSep(a: string, sep: char)
    requires sep !in a
    ensures Split(a, sep) == [a]
  {
    if a != [] {
      assert a[0] in a;
      assert a[1..] == a[1..] && forall c :: c in a[1..] ==> c in a;
      SplitNoSep(a[1..], sep);
      assert a == [a[0]] + a[1..];
    }
  }

  lemma {:induction false} SplitPrefix(a: string, b: string, sep: char)
    requires sep !in a
    ensures Split(a + b, sep) == [a + Split(b, sep)[0]] + Split(b, sep)[1..]
  {
    var sb := Split(b, sep);
    if a == [] {
      assert a + b == b;
      assert a + sb[0] == sb[0];
      assert sb == [sb[0]] + sb[1..];
    } else {
      assert a[0] in a;
      assert forall c :: c in a[1..] ==> c in a;
      assert (a + b)[0] == a[0];
      assert (a + b)[1..] == a[1..] + b;
      SplitPrefix(a[1..], b, sep);
      assert [a[0]] + (a[1..] + Split(b, sep)[0]) == a + Split(b, sep)[0];
    }
  }
}
