/** Join keys for pet names: the model of `normalizeName`.

    A name goes through five steps, in this order: lower-case it, turn the
    typographic apostrophe U+2019 into an ASCII one, replace every character
    that is neither a lower-case ASCII letter, a digit nor white space by a
    space, collapse each run of white space into one space, and trim.

    Characters are Dafny `char`s.  Lower-casing is modelled on ASCII only: a
    character outside ASCII lower-cases to itself.  White space is the set that
    JavaScript's `\s` and `String.prototype.trim` recognise. */
module NameKey {

  predicate IsUpper(c: char) { 'A' <= c <= 'Z' }

  /** The characters a key is made of, besides the single space. */
  predicate IsLowerAlnum(c: char) { 'a' <= c <= 'z' || '0' <= c <= '9' }

  /** An ASCII letter (either case) or digit. */
  predicate IsAsciiAlnum(c: char) { IsLowerAlnum(c) || IsUpper(c) }

  /** JavaScript white space and line terminators. */
  predicate IsWhite(c: char) {
    var n := c as int;
    || (9 <= n <= 13) || n == 0x20 || n == 0xA0 || n == 0x1680
    || (0x2000 <= n <= 0x200A) || n == 0x2028 || n == 0x2029
    || n == 0x202F || n == 0x205F || n == 0x3000 || n == 0xFEFF
  }

  const RightQuote: char := '\U{2019}'

  function LowerChar(c: char): char {
    if IsUpper(c) then (c as int + 32) as char else c
  }

  function StraightenChar(c: char): char {
    if c == RightQuote then '\'' else c
  }

  function ScrubChar(c: char): char {
    if IsLowerAlnum(c) || IsWhite(c) then c else ' '
  }

  /** What the three per-character steps do to one character. */
  function PrepChar(c: char): char {
    ScrubChar(StraightenChar(LowerChar(c)))
  }

  function MapChars(f: char -> char, s: string): string {
    seq(|s|, i requires 0 <= i < |s| => f(s[i]))
  }

  function Lower(s: string): string { MapChars(LowerChar, s) }

  /** The per-character steps of `normalizeName`: lower-case, straighten the
      apostrophe, scrub. */
  function Prepare(s: string): string {
    MapChars(ScrubChar, MapChars(StraightenChar, Lower(s)))
  }

  /** `s` without its leading white space. */
  function DropWhite(s: string): (r: string)
    ensures |r| <= |s|
  {
    if s != [] && IsWhite(s[0]) then DropWhite(s[1..]) else s
  }

  /** `s` without its trailing white space. */
  function TrimEnd(s: string): (r: string)
    ensures |r| <= |s|
  {
    if s != [] && IsWhite(s[|s| - 1]) then TrimEnd(s[..|s| - 1]) else s
  }

  function Trim(s: string): string { TrimEnd(DropWhite(s)) }

  /** Every maximal run of white space replaced by one space. */
  function Collapse(s: string): string
    decreases |s|
  {
    if s == [] then []
    else if IsWhite(s[0]) then " " + Collapse(DropWhite(s[1..]))
    else [s[0]] + Collapse(s[1..])
  }

  /** The join key of a display name. */
  function Normalize(name: string): string {
    Trim(Collapse(Prepare(name)))
  }

  /** A well-formed key: lower-case letters, digits and single inner spaces. */
  predicate IsKey(k: string) {
    && (forall i :: 0 <= i < |k| ==> IsLowerAlnum(k[i]) || k[i] == ' ')
    && (k != [] ==> k[0] != ' ' && k[|k| - 1] != ' ')
    && (forall i :: 0 <= i < |k| - 1 ==> !(k[i] == ' ' && k[i + 1] == ' '))
  }

  /** The lower-case letters and digits of `s`, in order. */
  function KeyChars(s: string): string {
    if s == [] then [] else (if IsLowerAlnum(s[0]) then [s[0]] else []) + KeyChars(s[1..])
  }

  // ---------------------------------------------------------------------
  // Per-character facts

  lemma PrepCharClass(c: char)
    ensures IsAsciiAlnum(c) ==> PrepChar(c) == LowerChar(c) && IsLowerAlnum(PrepChar(c))
    ensures !IsAsciiAlnum(c) ==> IsWhite(PrepChar(c))
    ensures IsLowerAlnum(LowerChar(c)) <==> IsAsciiAlnum(c)
  {
  }

  lemma PrepareAt(s: string)
    ensures |Prepare(s)| == |s|
    ensures forall i :: 0 <= i < |s| ==> Prepare(s)[i] == PrepChar(s[i])
  {
  }

  lemma PrepareConcat(a: string, b: string)
    ensures Prepare(a + b) == Prepare(a) + Prepare(b)
  {
    PrepareAt(a); PrepareAt(b); PrepareAt(a + b);
  }

  lemma LowerConcat(a: string, b: string)
    ensures Lower(a + b) == Lower(a) + Lower(b)
  {
  }

  lemma {:induction false} KeyCharsConcat(a: string, b: string)
    ensures KeyChars(a + b) == KeyChars(a) + KeyChars(b)
  {
    if a != [] {
      assert (a + b)[0] == a[0];
      assert (a + b)[1..] == a[1..] + b;
      KeyCharsConcat(a[1..], b);
    } else {
      assert a + b == b;
    }
  }

  /** A string with a letter or digit has a non-empty `KeyChars`. */
  lemma {:induction false} KeyCharsNonEmpty(s: string, i: int)
    requires 0 <= i < |s| && IsLowerAlnum(s[i])
    ensures KeyChars(s) != []
  {
    if i > 0 && !IsLowerAlnum(s[0]) {
      KeyCharsNonEmpty(s[1..], i - 1);
    }
  }

  lemma {:induction false} KeyCharsAllWhite(s: string)
    requires forall i :: 0 <= i < |s| ==> IsWhite(s[i])
    ensures KeyChars(s) == []
  {
    if s != [] {
      KeyCharsAllWhite(s[1..]);
    }
  }

  // ---------------------------------------------------------------------
  // Facts about the white-space steps

  lemma {:induction false} DropWhiteFacts(s: string)
    ensures DropWhite(s) == s[|s| - |DropWhite(s)|..]
    ensures DropWhite(s) == [] || !IsWhite(DropWhite(s)[0])
    ensures forall i :: 0 <= i < |s| - |DropWhite(s)| ==> IsWhite(s[i])
  {
    if s != [] && IsWhite(s[0]) {
      DropWhiteFacts(s[1..]);
    }
  }

  lemma {:induction false} TrimEndFacts(s: string)
    ensures TrimEnd(s) == s[..|TrimEnd(s)|]
    ensures TrimEnd(s) == [] || !IsWhite(TrimEnd(s)[|TrimEnd(s)| - 1])
    ensures forall i :: |TrimEnd(s)| <= i < |s| ==> IsWhite(s[i])
  {
    if s != [] && IsWhite(s[|s| - 1]) {
      TrimEndFacts(s[..|s| - 1]);
    }
  }

  /** What `Collapse` produces: no white space but single spaces, and every
      other character taken from its input. */
  lemma {:induction false} CollapseFacts(s: string)
    ensures Collapse(s) == [] <==> s == []
    ensures Collapse(s) != [] ==> (Collapse(s)[0] == ' ' <==> IsWhite(s[0]))
    ensures forall i :: 0 <= i < |Collapse(s)| ==>
      Collapse(s)[i] == ' ' || (!IsWhite(Collapse(s)[i]) && Collapse(s)[i] in s)
    ensures forall i :: 0 <= i < |Collapse(s)| - 1 ==> !(Collapse(s)[i] == ' ' && Collapse(s)[i + 1] == ' ')
    decreases |s|
  {
    if s != [] {
      if IsWhite(s[0]) {
        var d := DropWhite(s[1..]);
        DropWhiteFacts(s[1..]);
        CollapseFacts(d);
        var c := Collapse(d);
        assert forall x :: x in d ==> x in s;
        assert Collapse(s) == " " + c;
      } else {
        CollapseFacts(s[1..]);
        assert Collapse(s) == [s[0]] + Collapse(s[1..]);
      }
    }
  }

  lemma {:induction false} DropWhiteConcat(a: string, b: string)
    ensures DropWhite(a + b) == if DropWhite(a) == [] then DropWhite(b) else DropWhite(a) + b
  {
    if a != [] {
      assert (a + b)[0] == a[0];
      if IsWhite(a[0]) {
        assert (a + b)[1..] == a[1..] + b;
        DropWhiteConcat(a[1..], b);
      }
    } else {
      assert a + b == b;
    }
  }

  lemma {:induction false} KeyCharsDropWhite(s: string)
    ensures KeyChars(DropWhite(s)) == KeyChars(s)
  {
    if s != [] && IsWhite(s[0]) {
      KeyCharsDropWhite(s[1..]);
    }
  }

  lemma {:induction false} KeyCharsCollapse(s: string)
    ensures KeyChars(Collapse(s)) == KeyChars(s)
    decreases |s|
  {
    if s != [] {
      if IsWhite(s[0]) {
        var d := DropWhite(s[1..]);
        KeyCharsCollapse(d);
        KeyCharsDropWhite(s[1..]);
        assert (" " + Collapse(d))[1..] == Collapse(d);
      } else {
        KeyCharsCollapse(s[1..]);
        assert ([s[0]] + Collapse(s[1..]))[1..] == Collapse(s[1..]);
      }
    }
  }

  lemma KeyCharsTrim(s: string)
    ensures KeyChars(Trim(s)) == KeyChars(s)
  {
    var d := DropWhite(s);
    KeyCharsDropWhite(s);
    var t := TrimEnd(d);
    TrimEndFacts(d);
    var rest := d[|t|..];
    assert d == t + rest by {
      assert t == d[..|t|];
    }
    forall i | 0 <= i < |rest|
      ensures IsWhite(rest[i])
    {
      assert rest[i] == d[|t| + i];
    }
    KeyCharsConcat(t, rest);
    KeyCharsAllWhite(rest);
    assert Trim(s) == t;
  }

  lemma {:induction false} KeyCharsPrepare(s: string)
    ensures KeyChars(Prepare(s)) == KeyChars(Lower(s))
  {
    if s != [] {
      assert s == [s[0]] + s[1..];
      PrepareConcat([s[0]], s[1..]);
      LowerConcat([s[0]], s[1..]);
      KeyCharsConcat(Prepare([s[0]]), Prepare(s[1..]));
      KeyCharsConcat(Lower([s[0]]), Lower(s[1..]));
      PrepCharClass(s[0]);
      KeyCharsPrepare(s[1..]);
    }
  }

  /** `Collapse` maps strings that agree except on which white-space
      character sits at a position to the same result. */
  lemma {:induction false} CollapseSameShape(x: string, y: string)
    requires |x| == |y|
    requires forall i :: 0 <= i < |x| ==> x[i] == y[i] || (IsWhite(x[i]) && IsWhite(y[i]))
    ensures Collapse(x) == Collapse(y)
    decreases |x|
  {
    if x != [] {
      if IsWhite(x[0]) {
        DropWhiteSameShape(x[1..], y[1..]);
        DropWhiteFacts(x[1..]);
        DropWhiteFacts(y[1..]);
        CollapseSameShape(DropWhite(x[1..]), DropWhite(y[1..]));
      } else {
        CollapseSameShape(x[1..], y[1..]);
      }
    }
  }

  lemma {:induction false} DropWhiteSameShape(x: string, y: string)
    requires |x| == |y|
    requires forall i :: 0 <= i < |x| ==> x[i] == y[i] || (IsWhite(x[i]) && IsWhite(y[i]))
    ensures |DropWhite(x)| == |DropWhite(y)|
  {
    if x != [] && IsWhite(x[0]) {
      DropWhiteSameShape(x[1..], y[1..]);
    }
  }

  /** Two adjacent white-space characters collapse like one. */
  lemma {:induction false} CollapseRun(a: string, w: char, v: char, b: string)
    requires IsWhite(w) && IsWhite(v)
    ensures Collapse(a + [w, v] + b) == Collapse(a + [w] + b)
    decreases |a|, 1
  {
    if a == [] {
      CollapseRunFirst(w, v, b);
    } else if !IsWhite(a[0]) {
      assert (a + [w, v] + b)[1..] == a[1..] + [w, v] + b;
      assert (a + [w] + b)[1..] == a[1..] + [w] + b;
      CollapseRun(a[1..], w, v, b);
    } else {
      CollapseRunAfterWhite(a, w, v, b);
    }
  }

  lemma CollapseRunFirst(w: char, v: char, b: string)
    requires IsWhite(w) && IsWhite(v)
    ensures Collapse([w, v] + b) == Collapse([w] + b)
  {
    assert [w, v] + b == [w] + ([v] + b);
    assert ([w, v] + b)[1..] == [v] + b;
    assert ([w] + b)[1..] == b;
    assert DropWhite([v] + b) == DropWhite(b);
  }

  lemma {:induction false} CollapseRunAfterWhite(a: string, w: char, v: char, b: string)
    requires IsWhite(w) && IsWhite(v) && a != [] && IsWhite(a[0])
    ensures Collapse(a + [w, v] + b) == Collapse(a + [w] + b)
    decreases |a|, 0
  {
    var a' := a[1..];
    assert (a + [w, v] + b)[1..] == a' + ([w, v] + b);
    assert (a + [w] + b)[1..] == a' + ([w] + b);
    DropWhiteConcat(a', [w, v] + b);
    DropWhiteConcat(a', [w] + b);
    var d := DropWhite(a');
    if d == [] {
      DropWhiteConcat([w], [v] + b);
      DropWhiteConcat([v], b);
      assert [w, v] + b == [w] + ([v] + b);
      DropWhiteConcat([w], b);
    } else {
      assert d + ([w, v] + b) == d + [w, v] + b;
      assert d + ([w] + b) == d + [w] + b;
      CollapseRun(d, w, v, b);
    }
  }

  /** Collapsing `x` followed by one more white-space character. */
  lemma {:induction false} CollapseSnoc(x: string, w: char)
    requires IsWhite(w)
    ensures Collapse(x + [w]) ==
      if x != [] && IsWhite(x[|x| - 1]) then Collapse(x) else Collapse(x) + " "
    decreases |x|
  {
    if x == [] {
      assert x + [w] == [w] && [w][1..] == [];
    } else if !IsWhite(x[0]) {
      var t := x[1..];
      assert x + [w] == [x[0]] + (t + [w]);
      assert (x + [w])[1..] == t + [w];
      CollapseSnoc(t, w);
      assert t != [] ==> t[|t| - 1] == x[|x| - 1];
    } else {
      CollapseSnocWhite(x, w);
    }
  }

  lemma {:induction false} CollapseSnocWhite(x: string, w: char)
    requires IsWhite(w) && x != [] && IsWhite(x[0])
    ensures Collapse(x + [w]) ==
      if IsWhite(x[|x| - 1]) then Collapse(x) else Collapse(x) + " "
    decreases |x|, 0
  {
    var t := x[1..];
    assert (x + [w])[0] == x[0];
    assert (x + [w])[1..] == t + [w];
    assert Collapse(x + [w]) == " " + Collapse(DropWhite(t + [w]));
    assert Collapse(x) == " " + Collapse(DropWhite(t));
    DropWhiteConcat(t, [w]);
    DropWhiteFacts(t);
    var d := DropWhite(t);
    if d == [] {
      CollapseSnocAllWhite(x, w);
    } else {
      assert DropWhite(t + [w]) == d + [w];
      assert d[|d| - 1] == x[|x| - 1];
      CollapseSnoc(d, w);
    }
  }

  /** `x` is white space only: so is `x` with `w` appended. */
  lemma CollapseSnocAllWhite(x: string, w: char)
    requires IsWhite(w) && x != [] && IsWhite(x[0]) && DropWhite(x[1..]) == []
    ensures IsWhite(x[|x| - 1])
    ensures DropWhite(x[1..] + [w]) == []
  {
    var t := x[1..];
    assert forall i :: 0 <= i < |t| ==> IsWhite(t[i]) by {
      DropWhiteFacts(t);
    }
    assert DropWhite(t + [w]) == [] by {
      DropWhiteConcat(t, [w]);
      assert [w][1..] == [];
      assert DropWhite([w]) == [];
    }
    if |x| > 1 {
      assert x[|x| - 1] == t[|t| - 1];
    }
  }


  lemma DropWhiteSpaceFirst(y: string)
    ensures DropWhite(" " + y) == DropWhite(y)
  {
    assert (" " + y)[1..] == y;
  }

  lemma {:induction false} TrimEndSpaceLast(z: string)
    ensures TrimEnd(z + " ") == TrimEnd(z)
  {
    assert (z + " ")[..|z|] == z;
  }

  /** A string without double spaces, whose only white space is the space
      character, is left alone by `Collapse`. */
  lemma {:induction false} CollapseFixes(s: string)
    requires forall i :: 0 <= i < |s| ==> IsWhite(s[i]) ==> s[i] == ' '
    requires forall i :: 0 <= i < |s| - 1 ==> !(s[i] == ' ' && s[i + 1] == ' ')
    ensures Collapse(s) == s
  {
    if s != [] {
      CollapseFixes(s[1..]);
      if IsWhite(s[0]) {
        assert s[1..] == [] || s[1] != ' ';
        assert DropWhite(s[1..]) == s[1..];
        assert s == " " + s[1..];
      } else {
        assert s == [s[0]] + s[1..];
      }
    }
  }

  // ---------------------------------------------------------------------
  // Properties of `normalizeName`

  /** The key holds only lower-case ASCII letters, digits and single spaces,
      and neither starts nor ends with a space. */
  lemma NormalizeIsKey(name: string)
    ensures IsKey(Normalize(name))
  {
    var x := Prepare(name);
    PrepareAt(name);
    forall i | 0 <= i < |x| ensures IsLowerAlnum(x[i]) || IsWhite(x[i]) {
      PrepCharClass(name[i]);
    }
    CollapseSpaced(x);
    TrimSpaced(Collapse(x));
  }

  /** Lower-case letters, digits and spaces, without two spaces in a row. */
  predicate Spaced(y: string) {
    && (forall i :: 0 <= i < |y| ==> IsLowerAlnum(y[i]) || y[i] == ' ')
    && (forall i :: 0 <= i < |y| - 1 ==> !(y[i] == ' ' && y[i + 1] == ' '))
  }

  lemma CollapseSpaced(x: string)
    requires forall i :: 0 <= i < |x| ==> IsLowerAlnum(x[i]) || IsWhite(x[i])
    ensures Spaced(Collapse(x))
  {
    CollapseFacts(x);
    var y := Collapse(x);
    forall i | 0 <= i < |y| ensures IsLowerAlnum(y[i]) || y[i] == ' ' {
      if y[i] != ' ' {
        assert y[i] in x;
      }
    }
  }

  /** A slice of a `Spaced` string is `Spaced`. */
  lemma SpacedSlice(y: string, lo: int, hi: int)
    requires Spaced(y) && 0 <= lo <= hi <= |y|
    ensures Spaced(y[lo..hi])
  {
    var z := y[lo..hi];
    assert forall i :: 0 <= i < |z| ==> z[i] == y[lo + i];
  }

  lemma TrimSpaced(y: string)
    requires Spaced(y)
    ensures IsKey(Trim(y))
  {
    var z := DropWhite(y);
    assert Spaced(z) && (z == [] || z[0] != ' ') by {
      DropWhiteFacts(y);
      assert y[|y| - |z|..|y|] == z;
      SpacedSlice(y, |y| - |z|, |y|);
      assert IsWhite(' ');
    }
    var k := TrimEnd(z);
    assert Spaced(k) && (k == [] || (k[0] == z[0] && k[|k| - 1] != ' ')) by {
      TrimEndFacts(z);
      assert z[0..|k|] == k;
      SpacedSlice(z, 0, |k|);
      assert IsWhite(' ');
    }
  }


  /** The key keeps every ASCII letter and digit of the name, lower-cased and
      in order, and nothing else but spaces. */
  lemma NormalizeKeepsLettersAndDigits(name: string)
    ensures KeyChars(Normalize(name)) == KeyChars(Lower(name))
  {
    KeyCharsPrepare(name);
    KeyCharsCollapse(Prepare(name));
    KeyCharsTrim(Collapse(Prepare(name)));
  }

  /** The key is empty exactly when the name has no ASCII letter or digit. */
  lemma NormalizeEmptyIff(name: string)
    ensures Normalize(name) == [] <==> forall i :: 0 <= i < |name| ==> !IsAsciiAlnum(name[i])
  {
    var k := Normalize(name);
    NormalizeIsKey(name);
    NormalizeKeepsLettersAndDigits(name);
    if k != [] {
      KeyCharsNonEmpty(k, 0);
      KeyCharsNoAlnum(name);
    } else if i :| 0 <= i < |name| && IsAsciiAlnum(name[i]) {
      PrepCharClass(name[i]);
      KeyCharsNonEmpty(Lower(name), i);
    }
  }

  lemma KeyCharsNoAlnum(name: string)
    requires KeyChars(Lower(name)) != []
    ensures exists i :: 0 <= i < |name| && IsAsciiAlnum(name[i])
  {
    if forall i :: 0 <= i < |name| ==> !IsAsciiAlnum(name[i]) {
      forall i | 0 <= i < |name| ensures !IsLowerAlnum(Lower(name)[i]) {
        PrepCharClass(name[i]);
      }
      KeyCharsNoLowerAlnum(Lower(name));
      assert false;
    }
  }

  lemma {:induction false} KeyCharsNoLowerAlnum(s: string)
    requires forall i :: 0 <= i < |s| ==> !IsLowerAlnum(s[i])
    ensures KeyChars(s) == []
  {
    if s != [] {
      KeyCharsNoLowerAlnum(s[1..]);
    }
  }

  /** A well-formed key is its own key. */
  lemma NormalizeFixesKeys(k: string)
    requires IsKey(k)
    ensures Normalize(k) == k
  {
    PrepareAt(k);
    assert Prepare(k) == k;
    CollapseFixes(k);
    assert DropWhite(k) == k;
    assert TrimEnd(k) == k;
  }

  /** Normalising twice is normalising once. */
  lemma NormalizeIdempotent(name: string)
    ensures Normalize(Normalize(name)) == Normalize(name)
  {
    NormalizeIsKey(name);
    NormalizeFixesKeys(Normalize(name));
  }

  /** Two characters that normalisation cannot tell apart: the same letter or
      digit up to case, or two separators (punctuation, either apostrophe,
      white space, any other character). */
  predicate SameClass(c: char, d: char) {
    if IsAsciiAlnum(c) then IsAsciiAlnum(d) && LowerChar(c) == LowerChar(d)
    else !IsAsciiAlnum(d)
  }

  /** Names that differ only in case, in apostrophe style or in which
      separator stands at a position get the same key. */
  lemma NormalizeSameShape(s: string, t: string)
    requires |s| == |t|
    requires forall i :: 0 <= i < |s| ==> SameClass(s[i], t[i])
    ensures Normalize(s) == Normalize(t)
  {
    PrepareAt(s);
    PrepareAt(t);
    forall i | 0 <= i < |s|
      ensures Prepare(s)[i] == Prepare(t)[i] || (IsWhite(Prepare(s)[i]) && IsWhite(Prepare(t)[i]))
    {
      PrepCharClass(s[i]);
      PrepCharClass(t[i]);
    }
    CollapseSameShape(Prepare(s), Prepare(t));
  }

  /** A run of two separators gives the key of a single one. */
  lemma NormalizeSeparatorRun(a: string, c: char, d: char, b: string)
    requires !IsAsciiAlnum(c) && !IsAsciiAlnum(d)
    ensures Normalize(a + [c, d] + b) == Normalize(a + [c] + b)
  {
    PrepCharClass(c);
    PrepCharClass(d);
    PrepareConcat(a + [c, d], b);
    PrepareConcat(a, [c, d]);
    PrepareConcat(a + [c], b);
    PrepareConcat(a, [c]);
    PrepareAt([c, d]);
    PrepareAt([c]);
    assert Prepare([c, d]) == [PrepChar(c), PrepChar(d)];
    assert Prepare([c]) == [PrepChar(c)];
    CollapseRun(Prepare(a), PrepChar(c), PrepChar(d), Prepare(b));
  }

  /** A separator in front of a name does not change its key. */
  lemma NormalizeLeadingSeparator(c: char, s: string)
    requires !IsAsciiAlnum(c)
    ensures Normalize([c] + s) == Normalize(s)
  {
    PrepCharClass(c);
    PrepareConcat([c], s);
    PrepareAt([c]);
    var x := Prepare(s);
    var w := PrepChar(c);
    assert Prepare([c] + s) == [w] + x;
    assert ([w] + x)[1..] == x;
    if x != [] && IsWhite(x[0]) {
      assert DropWhite(x) == DropWhite(x[1..]);
    } else {
      assert DropWhite(x) == x;
      DropWhiteSpaceFirst(Collapse(x));
    }
  }

  /** A separator after a name does not change its key. */
  lemma NormalizeTrailingSeparator(s: string, c: char)
    requires !IsAsciiAlnum(c)
    ensures Normalize(s + [c]) == Normalize(s)
  {
    PrepCharClass(c);
    PrepareConcat(s, [c]);
    PrepareAt([c]);
    var x := Prepare(s);
    assert Prepare(s + [c]) == x + [PrepChar(c)];
    CollapseSnoc(x, PrepChar(c));
    if !(x != [] && IsWhite(x[|x| - 1])) {
      var y := Collapse(x);
      DropWhiteConcat(y, " ");
      if DropWhite(y) != [] {
        TrimEndSpaceLast(DropWhite(y));
      }
    }
  }

  /** Two spellings of one pet name, differing in case, hyphen and trailing
      punctuation, get the same key. */
  lemma NormalizeExample()
    ensures Normalize("Mega Neon Cat") == Normalize("mega-neon CAT!!") == "mega neon cat"
  {
    var target := "mega neon cat";
    ExampleIsKey();
    NormalizeFixesKeys(target);
    ExampleSameShape("Mega Neon Cat");
    NormalizeSameShape("Mega Neon Cat", target);
    ExampleSameShape("mega-neon CAT");
    NormalizeSameShape("mega-neon CAT", target);
    NormalizeTrailingSeparator("mega-neon CAT!", '!');
    assert "mega-neon CAT!" + ['!'] == "mega-neon CAT!!";
    NormalizeTrailingSeparator("mega-neon CAT", '!');
    assert "mega-neon CAT" + ['!'] == "mega-neon CAT!";
  }

  lemma ExampleIsKey()
    ensures IsKey("mega neon cat")
  {
  }

  lemma ExampleSameShape(s: string)
    requires s == "Mega Neon Cat" || s == "mega-neon CAT"
    ensures |s| == |"mega neon cat"|
    ensures forall i :: 0 <= i < |s| ==> SameClass(s[i], "mega neon cat"[i])
  {
  }
}
