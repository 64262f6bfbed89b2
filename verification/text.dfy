/**
 * The string operations of Python that the program relies on: `str.strip()`,
 * `str.lower()`, the substring test `a in b`, `str.split(sep)`, `int(text)` and
 * the `02d` format. Whitespace and case are those of the ASCII range.
 */
module Text {
  import opened Options

  // ---------------------------------------------------------------- sequence steps

  /** The first character of `s` put back in front of a split of the rest. */
  lemma PrependFirst(s: string, p: string, r: string)
    requires s != [] && s[1..] == p + r
    ensures s == [s[0]] + p + r
  {
    assert s == [s[0]] + s[1..];
  }

  /** The last character of `s` put back after a split of the rest. */
  lemma AppendLast(s: string, r: string, q: string)
    requires s != [] && s[..|s| - 1] == r + q
    ensures s == r + (q + [s[|s| - 1]])
  {
    assert s == s[..|s| - 1] + [s[|s| - 1]];
  }

  /** `PrependFirst` for a split in three. */
  lemma PrependFirst3(s: string, p: string, m: string, q: string)
    requires s != [] && s[1..] == p + m + q
    ensures s == [s[0]] + p + m + q
  {
    assert s == [s[0]] + s[1..];
  }

  /** `AppendLast` for a split in three. */
  lemma AppendLast3(s: string, p: string, m: string, q: string)
    requires s != [] && s[..|s| - 1] == p + m + q
    ensures s == p + m + (q + [s[|s| - 1]])
  {
    assert s == s[..|s| - 1] + [s[|s| - 1]];
  }

  /** Removing the last character of a text that ends with a non-empty `q`. */
  lemma DropLast(t: string, q: string)
    requires q != []
    ensures (t + q)[|t + q| - 1] == q[|q| - 1] && (t + q)[..|t + q| - 1] == t + q[..|q| - 1]
    ensures t != [] ==> (t + q)[0] == t[0]
  {
  }

  lemma Regroup(p: string, m: string, q: string)
    ensures p + (m + q) == p + m + q
  {
  }

  // ---------------------------------------------------------------- whitespace

  /** Characters that `str.strip()` treats as whitespace (ASCII range, including 0x1C to 0x1F). */
  predicate IsSpace(c: char) {
    c == ' ' || 9 <= c as int <= 13 || 28 <= c as int <= 31
  }

  predicate AllSpace(s: string) {
    forall k :: 0 <= k < |s| ==> IsSpace(s[k])
  }

  lemma AllSpaceCons(c: char, p: string)
    requires IsSpace(c) && AllSpace(p)
    ensures AllSpace([c] + p)
  {
    forall k | 0 <= k < |[c] + p| ensures IsSpace(([c] + p)[k]) {
      if k > 0 {
        assert ([c] + p)[k] == p[k - 1];
      }
    }
  }

  lemma AllSpaceSnoc(q: string, c: char)
    requires AllSpace(q) && IsSpace(c)
    ensures AllSpace(q + [c])
  {
    forall k | 0 <= k < |q + [c]| ensures IsSpace((q + [c])[k]) {
      if k < |q| {
        assert (q + [c])[k] == q[k];
      }
    }
  }

  /** `s` with its leading whitespace removed (a suffix of `s`, see `TrimStartShape`). */
  function TrimStart(s: string): (r: string)
    ensures |r| <= |s|
    ensures r != [] ==> !IsSpace(r[0]) && r[|r| - 1] == s[|s| - 1]
    decreases |s|
  {
    if s != [] && IsSpace(s[0]) then TrimStart(s[1..]) else s
  }

  /** `s` with its trailing whitespace removed (a prefix of `s`, see `TrimEndShape`). */
  function TrimEnd(s: string): (r: string)
    ensures |r| <= |s|
    ensures r != [] ==> !IsSpace(r[|r| - 1]) && r[0] == s[0]
    decreases |s|
  {
    if s != [] && IsSpace(s[|s| - 1]) then TrimEnd(s[..|s| - 1]) else s
  }

  /** Python's `s.strip()`. */
  function Strip(s: string): (r: string)
    ensures |r| <= |s|
    ensures r != [] ==> !IsSpace(r[0]) && !IsSpace(r[|r| - 1])
  {
    TrimEnd(TrimStart(s))
  }

  /** What `TrimStart` removes is a run of whitespace at the front. */
  lemma {:induction false} TrimStartShape(s: string) returns (p: string)
    ensures AllSpace(p) && s == p + TrimStart(s)
    decreases |s|
  {
    if s != [] && IsSpace(s[0]) {
      var p' := TrimStartShape(s[1..]);
      p := [s[0]] + p';
      AllSpaceCons(s[0], p');
      PrependFirst(s, p', TrimStart(s[1..]));
    } else {
      p := [];
    }
  }

  /** What `TrimEnd` removes is a run of whitespace at the back. */
  lemma {:induction false} TrimEndShape(s: string) returns (q: string)
    ensures AllSpace(q) && s == TrimEnd(s) + q
    decreases |s|
  {
    if s != [] && IsSpace(s[|s| - 1]) {
      var q' := TrimEndShape(s[..|s| - 1]);
      q := q' + [s[|s| - 1]];
      AllSpaceSnoc(q', s[|s| - 1]);
      AppendLast(s, TrimEnd(s[..|s| - 1]), q');
    } else {
      q := [];
    }
  }

  /** `Strip(s)` is `s` less a run of whitespace at each end; with `StripUnique` this characterises it. */
  lemma StripShape(s: string)
    ensures exists p, q :: AllSpace(p) && AllSpace(q) && s == p + Strip(s) + q
  {
    var p := TrimStartShape(s);
    var q := TrimEndShape(TrimStart(s));
    Regroup(p, Strip(s), q);
  }

  lemma {:induction false} TrimStartOfSpaces(p: string, t: string)
    requires AllSpace(p)
    requires t == [] || !IsSpace(t[0])
    ensures TrimStart(p + t) == t
    decreases |p|
  {
    if p != [] {
      assert (p + t)[1..] == p[1..] + t;
      TrimStartOfSpaces(p[1..], t);
    } else {
      assert p + t == t;
    }
  }

  lemma {:induction false} TrimEndOfSpaces(t: string, q: string)
    requires AllSpace(q)
    requires t == [] || !IsSpace(t[|t| - 1])
    ensures TrimEnd(t + q) == t
    decreases |q|
  {
    if q != [] {
      assert (t + q)[..|t + q| - 1] == t + q[..|q| - 1];
      TrimEndOfSpaces(t, q[..|q| - 1]);
    } else {
      assert t + q == t;
    }
  }

  /**
   * Strip is characterised independently of how it is computed: whatever
   * whitespace surrounds a text that neither starts nor ends with whitespace
   * is exactly what is removed.
   */
  lemma StripUnique(p: string, t: string, q: string)
    requires AllSpace(p) && AllSpace(q)
    requires t != [] ==> !IsSpace(t[0]) && !IsSpace(t[|t| - 1])
    ensures Strip(p + t + q) == t
  {
    if t == [] {
      assert p + t + q == p + q;
      TrimStartOfSpaces(p + q, []);
      assert p + q + [] == p + q;
    } else {
      assert p + t + q == p + (t + q);
      TrimStartOfSpaces(p, t + q);
      TrimEndOfSpaces(t, q);
    }
  }

  /** A text that neither starts nor ends with whitespace is its own strip. */
  lemma StripTrimmed(t: string)
    requires t != [] ==> !IsSpace(t[0]) && !IsSpace(t[|t| - 1])
    ensures Strip(t) == t
  {
    assert [] + t == t;
    TrimStartOfSpaces([], t);
    assert t + [] == t;
    TrimEndOfSpaces(t, []);
  }

  /** Stripping twice is stripping once. */
  lemma StripIdempotent(s: string)
    ensures Strip(Strip(s)) == Strip(s)
  {
    StripTrimmed(Strip(s));
  }

  // ---------------------------------------------------------------- case

  predicate IsUpper(c: char) {
    'A' <= c <= 'Z'
  }

  function LowerChar(c: char): char {
    if IsUpper(c) then (c as int + 32) as char else c
  }

  /** Python's `s.lower()` on the ASCII letters. */
  function Lower(s: string): (r: string)
    ensures |r| == |s|
    ensures forall k :: 0 <= k < |s| ==> r[k] == LowerChar(s[k])
    ensures forall k :: 0 <= k < |r| ==> !IsUpper(r[k])
    decreases |s|
  {
    if s == [] then [] else [LowerChar(s[0])] + Lower(s[1..])
  }

  /** A text without capitals is its own lower-case form; in particular lower-casing is idempotent. */
  lemma LowerUnchanged(s: string)
    requires forall k :: 0 <= k < |s| ==> !IsUpper(s[k])
    ensures Lower(s) == s
  {
  }

  // ---------------------------------------------------------------- substrings

  /** Python's `pattern in text` for strings (the empty pattern occurs in every text). */
  predicate Contains(text: string, pattern: string)
    ensures Contains(text, pattern) ==> |pattern| <= |text|
    ensures |pattern| == |text| ==> (Contains(text, pattern) <==> pattern == text)
    decreases |text|
  {
    pattern <= text || (text != [] && Contains(text[1..], pattern))
  }

  /** `pattern` occurs in `text` starting at index `i`. */
  ghost predicate OccursAt(text: string, pattern: string, i: int) {
    0 <= i <= |text| - |pattern| && text[i..i + |pattern|] == pattern
  }

  /** An occurrence in `text[1..]` is an occurrence in `text` one place later. */
  lemma OccursShift(text: string, pattern: string, i: int)
    requires text != [] && 0 <= i
    ensures OccursAt(text[1..], pattern, i) <==> OccursAt(text, pattern, i + 1)
  {
    if 0 <= i <= |text| - 1 - |pattern| {
      assert text[1..][i..i + |pattern|] == text[i + 1..i + 1 + |pattern|];
    }
  }

  /** Where `Contains` finds `pattern`. */
  lemma {:induction false} ContainsWitness(text: string, pattern: string) returns (i: nat)
    requires Contains(text, pattern)
    ensures OccursAt(text, pattern, i)
    decreases |text|
  {
    if pattern <= text {
      i := 0;
      assert text[0..|pattern|] == text[..|pattern|];
    } else {
      var j := ContainsWitness(text[1..], pattern);
      OccursShift(text, pattern, j);
      i := j + 1;
    }
  }

  /** An occurrence anywhere is found by `Contains`. */
  lemma {:induction false} OccursContains(text: string, pattern: string, i: int)
    requires OccursAt(text, pattern, i)
    ensures Contains(text, pattern)
    decreases i
  {
    if i > 0 {
      OccursShift(text, pattern, i - 1);
      OccursContains(text[1..], pattern, i - 1);
    } else {
      assert text[0..|pattern|] == text[..|pattern|];
    }
  }

  /** `Contains` is the substring test: `pattern` occurs in `text` at some index. */
  lemma ContainsIff(text: string, pattern: string)
    ensures Contains(text, pattern) <==> exists i :: OccursAt(text, pattern, i)
  {
    if Contains(text, pattern) {
      var i := ContainsWitness(text, pattern);
    }
    if exists i :: OccursAt(text, pattern, i) {
      var i :| OccursAt(text, pattern, i);
      OccursContains(text, pattern, i);
    }
  }

  /** Whatever is written between two texts is contained in the result. */
  lemma ContainsInfix(a: string, b: string, c: string)
    ensures Contains(a + b + c, b)
  {
    var text := a + b + c;
    assert text[|a|..|a| + |b|] == b;
    assert OccursAt(text, b, |a|);
    ContainsIff(text, b);
  }

  // ---------------------------------------------------------------- split / join

  /** Joins parts with `sep` between neighbours, the inverse of `Split`. */
  function Join(parts: seq<string>, sep: char): (s: string)
    requires |parts| >= 1
    decreases |parts|
  {
    if |parts| == 1 then parts[0] else parts[0] + [sep] + Join(parts[1..], sep)
  }

  /** How many times `c` occurs in `s`. */
  function Count(s: string, c: char): nat
    decreases |s|
  {
    if s == [] then 0 else (if s[0] == c then 1 else 0) + Count(s[1..], c)
  }

  /** `Count` is the multiplicity of `c` in the multiset of the characters of `s`. */
  lemma {:induction false} CountIsMultiplicity(s: string, c: char)
    ensures Count(s, c) == multiset(s)[c]
    decreases |s|
  {
    if s != [] {
      CountIsMultiplicity(s[1..], c);
      assert s == [s[0]] + s[1..];
      assert multiset(s) == multiset([s[0]]) + multiset(s[1..]);
    }
  }

  /**
   * Python's `s.split(sep)` for a one-character separator: one more part than
   * there are separators, and none of the parts holds the separator.
   */
  function Split(s: string, sep: char): (parts: seq<string>)
    ensures |parts| == Count(s, sep) + 1
    ensures forall k :: 0 <= k < |parts| ==> sep !in parts[k]
    decreases |s|
  {
    if s == [] then [[]]
    else
      var rest := Split(s[1..], sep);
      assert s == [s[0]] + s[1..];
      if s[0] == sep then [[]] + rest else [[s[0]] + rest[0]] + rest[1..]
  }

  /** Glueing `x` to the front of the first part glues it to the front of the join. */
  lemma JoinGlue(x: string, parts: seq<string>, sep: char)
    requires |parts| >= 1
    ensures Join([x + parts[0]] + parts[1..], sep) == x + Join(parts, sep)
  {
    var glued := [x + parts[0]] + parts[1..];
    assert glued[0] == x + parts[0];
    if |parts| > 1 {
      assert glued[1..] == parts[1..];
    }
  }

  /** One step of `Split` at a leading separator: it starts an empty first part. */
  lemma SplitAtSep(s: string, sep: char)
    requires s != [] && s[0] == sep
    ensures Split(s, sep) == [[]] + Split(s[1..], sep)
  {
  }

  /** One step of `Split` at any other character: it is glued to the first part. */
  lemma SplitInPart(s: string, sep: char)
    requires s != [] && s[0] != sep
    ensures Split(s, sep) == [[s[0]] + Split(s[1..], sep)[0]] + Split(s[1..], sep)[1..]
  {
  }

  /** An empty first part contributes only the separator that follows it. */
  lemma JoinAfterEmpty(rest: seq<string>, sep: char)
    requires |rest| >= 1
    ensures Join([[]] + rest, sep) == [sep] + Join(rest, sep)
  {
    var parts := [[]] + rest;
    assert parts[1..] == rest;
    assert parts[0] + [sep] == [sep];
  }

  /** A leading separator starts an empty first part, so the join puts it back. */
  lemma JoinSplitAtSep(s: string, sep: char)
    requires s != [] && s[0] == sep
    requires Join(Split(s[1..], sep), sep) == s[1..]
    ensures Join(Split(s, sep), sep) == s
  {
    SplitAtSep(s, sep);
    JoinAfterEmpty(Split(s[1..], sep), sep);
    assert [sep] + s[1..] == s;
  }

  /** Any other leading character is glued to the first part, so the join puts it back. */
  lemma JoinSplitInPart(s: string, sep: char)
    requires s != [] && s[0] != sep
    requires Join(Split(s[1..], sep), sep) == s[1..]
    ensures Join(Split(s, sep), sep) == s
  {
    var rest := Split(s[1..], sep);
    SplitInPart(s, sep);
    JoinGlue([s[0]], rest, sep);
    assert [s[0]] + s[1..] == s;
  }

  /** Joining the parts of a split gives back the text. */
  lemma {:induction false} JoinSplit(s: string, sep: char)
    ensures Join(Split(s, sep), sep) == s
    decreases |s|
  {
    if s != [] {
      JoinSplit(s[1..], sep);
      if s[0] == sep {
        JoinSplitAtSep(s, sep);
      } else {
        JoinSplitInPart(s, sep);
      }
    }
  }

  /** The inductive step of `SplitCons`: a first character that is not the separator joins the first part. */
  lemma SplitConsStep(a: string, t: string, sep: char)
    requires a != [] && sep !in a
    requires Split(a[1..] + t, sep) == [a[1..] + Split(t, sep)[0]] + Split(t, sep)[1..]
    ensures Split(a + t, sep) == [a + Split(t, sep)[0]] + Split(t, sep)[1..]
  {
    var r := Split(t, sep);
    var s := a + t;
    FirstOfConcat(a, t);
    SplitInPart(s, sep);
    PartsHeadTail(a[1..] + r[0], r[1..]);
    FirstAndRest(a, r[0]);
  }

  /** The first character and the rest of a text that starts with a non-empty `a`. */
  lemma FirstOfConcat(a: string, t: string)
    requires a != []
    ensures (a + t)[0] == a[0] && (a + t)[1..] == a[1..] + t
  {
  }

  /** The first part and the remaining parts of a list of parts built by prepending. */
  lemma PartsHeadTail(x: string, rest: seq<string>)
    ensures ([x] + rest)[0] == x && ([x] + rest)[1..] == rest
  {
  }

  /** A non-empty text is its first character followed by the rest. */
  lemma FirstAndRest(a: string, x: string)
    requires a != []
    ensures [a[0]] + (a[1..] + x) == a + x
  {
    assert a == [a[0]] + a[1..];
  }

  /** A separator-free prefix is glued to the front of the first part. */
  lemma {:induction false} SplitCons(a: string, t: string, sep: char)
    requires sep !in a
    ensures Split(a + t, sep) == [a + Split(t, sep)[0]] + Split(t, sep)[1..]
    decreases |a|
  {
    if a != [] {
      SplitCons(a[1..], t, sep);
      SplitConsStep(a, t, sep);
    } else {
      var r := Split(t, sep);
      assert a + t == t;
      assert a + r[0] == r[0];
      assert [r[0]] + r[1..] == r;
    }
  }

  /** A single separator-free part splits back to itself. */
  lemma SplitJoinSingle(a: string, sep: char)
    requires sep !in a
    ensures Split(a, sep) == [a]
  {
    SplitCons(a, [], sep);
    assert a + [] == a;
  }

  /** Putting a separator-free part in front of a join that splits back puts it in front of the parts. */
  lemma SplitJoinCons(a: string, rest: seq<string>, sep: char)
    requires sep !in a && |rest| >= 1
    requires Split(Join(rest, sep), sep) == rest
    ensures Split(Join([a] + rest, sep), sep) == [a] + rest
  {
    var j := Join(rest, sep);
    var parts := [a] + rest;
    assert parts[0] == a && parts[1..] == rest;
    assert Join(parts, sep) == a + ([sep] + j);
    SplitCons(a, [sep] + j, sep);
    assert ([sep] + j)[0] == sep && ([sep] + j)[1..] == j;
    SplitAtSep([sep] + j, sep);
    assert a + [] == a;
  }

  /** Splitting what `Join` produced gives back the parts. */
  lemma {:induction false} SplitJoin(parts: seq<string>, sep: char)
    requires |parts| >= 1
    requires forall k :: 0 <= k < |parts| ==> sep !in parts[k]
    ensures Split(Join(parts, sep), sep) == parts
    decreases |parts|
  {
    if |parts| == 1 {
      SplitJoinSingle(parts[0], sep);
    } else {
      assert forall k :: 0 <= k < |parts[1..]| ==> parts[1..][k] == parts[k + 1];
      SplitJoin(parts[1..], sep);
      SplitJoinCons(parts[0], parts[1..], sep);
      assert [parts[0]] + parts[1..] == parts;
    }
  }

  // ---------------------------------------------------------------- integers

  predicate IsDigit(c: char) {
    '0' <= c <= '9'
  }

  /** A non-empty run of decimal digits. */
  predicate IsNumeral(s: string) {
    s != [] && forall k :: 0 <= k < |s| ==> IsDigit(s[k])
  }

  function DigitValue(c: char): nat
    requires IsDigit(c)
  {
    c as int - '0' as int
  }

  function DigitChar(d: nat): (c: char)
    requires d < 10
    ensures IsDigit(c) && DigitValue(c) == d
  {
    ('0' as int + d) as char
  }

  /** The value of a run of decimal digits, most significant first. */
  function DigitsValue(ds: string): nat
    requires forall k :: 0 <= k < |ds| ==> IsDigit(ds[k])
    decreases |ds|
  {
    if ds == [] then 0 else DigitsValue(ds[..|ds| - 1]) * 10 + DigitValue(ds[|ds| - 1])
  }

  /** The shortest decimal numeral of `n`: digits only, no leading zero. */
  function Decimal(n: nat): (s: string)
    ensures IsNumeral(s)
    ensures s[0] == '0' ==> s == "0"
    ensures n >= 10 ==> |s| >= 2
    ensures n < 10 ==> |s| == 1
    decreases n
  {
    if n < 10 then [DigitChar(n)] else Decimal(n / 10) + [DigitChar(n % 10)]
  }

  lemma {:induction false} DecimalValue(n: nat)
    ensures DigitsValue(Decimal(n)) == n
    decreases n
  {
    if n >= 10 {
      var s := Decimal(n);
      assert s[..|s| - 1] == Decimal(n / 10);
      DecimalValue(n / 10);
    }
  }

  /**
   * The whitespace `int()` skips around a numeral: space and tab to carriage
   * return. It is narrower than `IsSpace`: 0x1C to 0x1F are stripped by
   * `str.strip()` but refused by `int()`.
   */
  predicate IsIntSpace(c: char) {
    c == ' ' || 9 <= c as int <= 13
  }

  predicate AllIntSpace(s: string) {
    forall k :: 0 <= k < |s| ==> IsIntSpace(s[k])
  }

  lemma AllIntSpaceCons(c: char, p: string)
    requires IsIntSpace(c) && AllIntSpace(p)
    ensures AllIntSpace([c] + p)
  {
    forall k | 0 <= k < |[c] + p| ensures IsIntSpace(([c] + p)[k]) {
      if k > 0 {
        assert ([c] + p)[k] == p[k - 1];
      }
    }
  }

  lemma AllIntSpaceSnoc(q: string, c: char)
    requires AllIntSpace(q) && IsIntSpace(c)
    ensures AllIntSpace(q + [c])
  {
    forall k | 0 <= k < |q + [c]| ensures IsIntSpace((q + [c])[k]) {
      if k < |q| {
        assert (q + [c])[k] == q[k];
      }
    }
  }

  /** `s` less the whitespace `int()` skips at both ends. */
  function IntTrim(s: string): (r: string)
    ensures |r| <= |s|
    ensures r != [] ==> !IsIntSpace(r[0]) && !IsIntSpace(r[|r| - 1])
    decreases |s|
  {
    if s != [] && IsIntSpace(s[0]) then IntTrim(s[1..])
    else if s != [] && IsIntSpace(s[|s| - 1]) then IntTrim(s[..|s| - 1])
    else s
  }

  /** What `IntTrim` removes is a run of `int()` whitespace at each end. */
  lemma {:induction false} IntTrimShape(s: string) returns (p: string, q: string)
    ensures AllIntSpace(p) && AllIntSpace(q) && s == p + IntTrim(s) + q
    decreases |s|
  {
    if s != [] && IsIntSpace(s[0]) {
      var p', q' := IntTrimShape(s[1..]);
      p, q := [s[0]] + p', q';
      AllIntSpaceCons(s[0], p');
      PrependFirst3(s, p', IntTrim(s[1..]), q');
    } else if s != [] && IsIntSpace(s[|s| - 1]) {
      var p', q' := IntTrimShape(s[..|s| - 1]);
      p, q := p', q' + [s[|s| - 1]];
      AllIntSpaceSnoc(q', s[|s| - 1]);
      AppendLast3(s, p', IntTrim(s[..|s| - 1]), q');
    } else {
      p, q := [], [];
    }
  }

  /** One step of `IntTrim` at leading whitespace. */
  lemma IntTrimFront(s: string)
    requires s != [] && IsIntSpace(s[0])
    ensures IntTrim(s) == IntTrim(s[1..])
  {
  }

  /** One step of `IntTrim` at trailing whitespace, once the front is clear. */
  lemma IntTrimBack(s: string)
    requires s != [] && !IsIntSpace(s[0]) && IsIntSpace(s[|s| - 1])
    ensures IntTrim(s) == IntTrim(s[..|s| - 1])
  {
  }

  /** Leading `int()` whitespace is all removed before anything else. */
  lemma {:induction false} IntTrimSpacesFirst(p: string, r: string)
    requires AllIntSpace(p)
    ensures IntTrim(p + r) == IntTrim(r)
    decreases |p|
  {
    if p != [] {
      FirstOfConcat(p, r);
      IntTrimFront(p + r);
      IntTrimSpacesFirst(p[1..], r);
    } else {
      assert p + r == r;
    }
  }

  /** Trailing `int()` whitespace after a text that does not start or end with it is removed, and nothing else. */
  lemma {:induction false} IntTrimSpacesLast(t: string, q: string)
    requires AllIntSpace(q)
    requires t != [] ==> !IsIntSpace(t[0]) && !IsIntSpace(t[|t| - 1])
    ensures IntTrim(t + q) == t
    decreases |q|
  {
    if t == [] {
      assert t + q == q + t;
      IntTrimSpacesFirst(q, t);
    } else if q != [] {
      DropLast(t, q);
      IntTrimBack(t + q);
      IntTrimSpacesLast(t, q[..|q| - 1]);
    } else {
      assert t + q == t;
    }
  }

  /** `int()` whitespace around a text without such whitespace at its ends is exactly what `IntTrim` removes. */
  lemma IntTrimUnique(p: string, t: string, q: string)
    requires AllIntSpace(p) && AllIntSpace(q)
    requires t != [] ==> !IsIntSpace(t[0]) && !IsIntSpace(t[|t| - 1])
    ensures IntTrim(p + t + q) == t
  {
    Regroup(p, t, q);
    IntTrimSpacesFirst(p, t + q);
    IntTrimSpacesLast(t, q);
  }

  /** The signs `int()` accepts in front of the digits. */
  predicate IsSign(sign: string) {
    sign == "" || sign == "+" || sign == "-"
  }

  /**
   * The most decimal digits `int()` reads: CPython's default limit for
   * converting a string to an integer. Leading zeros count toward it.
   */
  const MaxIntDigits: nat := 4300

  /** A numeral short enough for `int()` to read. */
  predicate IsIntDigits(ds: string) {
    IsNumeral(ds) && |ds| <= MaxIntDigits
  }

  /** The value of a numeral under an optional sign. */
  function SignedValue(sign: string, ds: string): int
    requires IsNumeral(ds)
  {
    if sign == "-" then -(DigitsValue(ds) as int) else DigitsValue(ds)
  }

  /**
   * `text` is an optional sign and a numeral of at most `MaxIntDigits`
   * digits, with `int()` whitespace around them, whose value is `v`: the
   * texts `int()` accepts, stated without reference to how they are scanned.
   */
  ghost predicate IntLiteral(text: string, v: int) {
    exists p, sign, ds, q :: AllIntSpace(p) && AllIntSpace(q) && IsSign(sign) && IsIntDigits(ds)
      && text == p + sign + ds + q && v == SignedValue(sign, ds)
  }

  /** An optional sign and one to `MaxIntDigits` ASCII digits (leading zeros allowed), read as their value. */
  function ReadSigned(t: string): (r: Option<int>)
    ensures r.Some? ==> t != [] && IsDigit(t[|t| - 1])
    ensures r.Some? && r.value < 0 ==> t[0] == '-'
  {
    if t != [] && (t[0] == '+' || t[0] == '-') then
      if IsIntDigits(t[1..]) then
        Some(if t[0] == '-' then -(DigitsValue(t[1..]) as int) else DigitsValue(t[1..]))
      else None
    else if IsIntDigits(t) then Some(DigitsValue(t))
    else None
  }

  /** `ReadSigned` accepts every sign-and-numeral text, at its value, unless it has too many digits. */
  lemma ReadSignedComplete(sign: string, ds: string)
    requires IsSign(sign) && IsNumeral(ds)
    ensures ReadSigned(sign + ds) == if |ds| <= MaxIntDigits then Some(SignedValue(sign, ds)) else None
  {
    if sign == "" {
      assert sign + ds == ds;
      ReadUnsigned(ds);
    } else {
      assert sign == [sign[0]];
      ReadAfterSign(sign[0], ds);
    }
  }

  /** `ReadSignedComplete` without a sign: a numeral starts with a digit, not a sign. */
  lemma ReadUnsigned(ds: string)
    requires IsNumeral(ds)
    ensures ReadSigned(ds) == if |ds| <= MaxIntDigits then Some(DigitsValue(ds)) else None
  {
    assert IsDigit(ds[0]);
  }

  /** `ReadSignedComplete` with a sign: the digits after it are read, and negated under '-'. */
  lemma ReadAfterSign(c: char, ds: string)
    requires (c == '+' || c == '-') && IsNumeral(ds)
    ensures ReadSigned([c] + ds) ==
      if |ds| <= MaxIntDigits then Some(if c == '-' then -(DigitsValue(ds) as int) else DigitsValue(ds)) else None
  {
    var t := [c] + ds;
    assert t != [] && t[0] == c && t[1..] == ds;
    assert ReadSigned(t) ==
      if IsIntDigits(ds) then Some(if c == '-' then -(DigitsValue(ds) as int) else DigitsValue(ds)) else None;
  }

  /** `ReadSigned` accepts nothing but sign-and-numeral texts. */
  lemma ReadSignedSound(t: string) returns (sign: string, ds: string)
    requires ReadSigned(t).Some?
    ensures IsSign(sign) && IsIntDigits(ds) && t == sign + ds
    ensures ReadSigned(t).value == SignedValue(sign, ds)
  {
    if t[0] == '+' || t[0] == '-' {
      sign, ds := [t[0]], t[1..];
      assert t == [t[0]] + t[1..];
    } else {
      sign, ds := [], t;
      assert t == [] + t;
    }
  }

  /**
   * Python's `int(text)` for decimal text: `int()` whitespace around an
   * optional sign and at least one ASCII digit (leading zeros allowed).
   */
  function ParseInt(text: string): (r: Option<int>)
    ensures r.Some? ==> IntTrim(text) != [] && IsDigit(IntTrim(text)[|IntTrim(text)| - 1])
    ensures r.Some? && r.value < 0 ==> IntTrim(text)[0] == '-'
  {
    ReadSigned(IntTrim(text))
  }

  /**
   * Every sign-and-numeral text, with `int()` whitespace around it, is read
   * as its value, unless the numeral has more than `MaxIntDigits` digits.
   */
  lemma ParseIntComplete(p: string, sign: string, ds: string, q: string)
    requires AllIntSpace(p) && AllIntSpace(q) && IsSign(sign) && IsNumeral(ds)
    ensures ParseInt(p + sign + ds + q) == if |ds| <= MaxIntDigits then Some(SignedValue(sign, ds)) else None
  {
    assert p + sign + ds + q == p + (sign + ds) + q;
    ParseIntAround(p + sign + ds + q, p, sign, ds, q);
  }

  /** `ParseIntComplete` for a text already known to be laid out as `p`, the signed numeral, `q`. */
  lemma ParseIntAround(text: string, p: string, sign: string, ds: string, q: string)
    requires AllIntSpace(p) && AllIntSpace(q) && IsSign(sign) && IsNumeral(ds)
    requires text == p + (sign + ds) + q
    ensures ParseInt(text) == if |ds| <= MaxIntDigits then Some(SignedValue(sign, ds)) else None
  {
    var t := sign + ds;
    assert t[0] == (if sign == "" then ds[0] else sign[0]);
    assert t[|t| - 1] == ds[|ds| - 1];
    IntTrimUnique(p, t, q);
    ReadSignedComplete(sign, ds);
  }

  /** Every text `int()` reads is a sign and a numeral with `int()` whitespace around it, and has their value. */
  lemma ParseIntSound(text: string) returns (p: string, sign: string, ds: string, q: string)
    requires ParseInt(text).Some?
    ensures AllIntSpace(p) && AllIntSpace(q) && IsSign(sign) && IsIntDigits(ds)
    ensures text == p + sign + ds + q && ParseInt(text).value == SignedValue(sign, ds)
  {
    var t := IntTrim(text);
    p, q := IntTrimShape(text);
    sign, ds := ReadSignedSound(t);
    Regroup(p, sign, ds);
    assert text == p + (sign + ds) + q;
  }

  /** `int()` gives `v` exactly for the sign-and-numeral texts worth `v`; every other text is refused. */
  lemma ParseIntIff(text: string, v: int)
    ensures ParseInt(text) == Some(v) <==> IntLiteral(text, v)
  {
    if ParseInt(text) == Some(v) {
      var p, sign, ds, q := ParseIntSound(text);
      assert AllIntSpace(p) && AllIntSpace(q) && IsSign(sign) && IsIntDigits(ds)
        && text == p + sign + ds + q && v == SignedValue(sign, ds);
    }
    if IntLiteral(text, v) {
      var p, sign, ds, q :| AllIntSpace(p) && AllIntSpace(q) && IsSign(sign) && IsIntDigits(ds)
        && text == p + sign + ds + q && v == SignedValue(sign, ds);
      ParseIntComplete(p, sign, ds, q);
    }
  }

  /** A numeral, with any `int()` whitespace around it, reads back as its value unless it is too long. */
  lemma ParseIntNumeral(p: string, ds: string, q: string)
    requires AllIntSpace(p) && AllIntSpace(q) && IsNumeral(ds)
    ensures ParseInt(p + ds + q) == if |ds| <= MaxIntDigits then Some(DigitsValue(ds)) else None
  {
    assert "" + ds == ds;
    ParseIntAround(p + ds + q, p, "", ds, q);
  }

  /** An unsigned numeral reads as its value, unless it is too long. */
  lemma ParseIntUnsigned(ds: string)
    requires IsNumeral(ds)
    ensures ParseInt(ds) == if |ds| <= MaxIntDigits then Some(DigitsValue(ds)) else None
  {
    assert [] + ("" + ds) + [] == ds;
    ParseIntAround(ds, [], "", ds, []);
  }

  /** A numeral with a minus sign in front reads as the negation of its value, unless it is too long. */
  lemma ParseIntNegated(ds: string)
    requires IsNumeral(ds)
    ensures ParseInt("-" + ds) == if |ds| <= MaxIntDigits then Some(-(DigitsValue(ds) as int)) else None
  {
    assert [] + ("-" + ds) + [] == "-" + ds;
    ParseIntAround("-" + ds, [], "-", ds, []);
  }

  /**
   * `int(str(n))` is `n`, and `int("-" + str(n))` is `-n`, for every `n`
   * whose decimal numeral `int()` is willing to read; longer ones are refused.
   */
  lemma ParseIntDecimal(n: nat)
    ensures ParseInt(Decimal(n)) == if |Decimal(n)| <= MaxIntDigits then Some(n) else None
    ensures ParseInt("-" + Decimal(n)) == if |Decimal(n)| <= MaxIntDigits then Some(-(n as int)) else None
  {
    var d := Decimal(n);
    DecimalValue(n);
    ParseIntUnsigned(d);
    assert ParseInt(d) == if |d| <= MaxIntDigits then Some(n) else None;
    ParseIntNegated(d);
    assert ParseInt("-" + d) == if |d| <= MaxIntDigits then Some(-(n as int)) else None;
  }

  /** The separator 0x1C, which `str.strip()` removes, is not skipped by `int()`: "9\x1c" is refused. */
  lemma ParseIntRefusesSeparator()
    ensures ParseInt(['9', 28 as char]) == None
  {
    var a := ['9', 28 as char];
    IntTrimUnique([], a, []);
    assert [] + a + [] == a;
    assert !IsDigit(a[1]);
  }

  /** Python's `f"{n:02d}"` for a non-negative `n`: zero-padded to two digits. */
  function ZeroPad2(n: nat): (s: string)
    ensures IsNumeral(s) && |s| >= 2
    ensures n < 100 ==> |s| == 2
  {
    if n < 10 then ['0'] + Decimal(n) else Decimal(n)
  }

  lemma ZeroPad2Value(n: nat)
    ensures DigitsValue(ZeroPad2(n)) == n
  {
    DecimalValue(n);
    if n < 10 {
      var s := ZeroPad2(n);
      assert s[..1] == ['0'];
    }
  }
}
