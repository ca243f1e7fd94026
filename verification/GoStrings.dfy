/**
 The functions of Go's `strings` and `strconv` packages that the directive loaders and the path
 builders call, over strings of characters.
 */
module GoStrings {

  function Prepended(c: char, pieces: seq<string>, sep: char): (r: seq<string>)
    requires |pieces| >= 1
    ensures |r| >= 1
  {
    if c == sep then [""] + pieces else [[c] + pieces[0]] + pieces[1..]
  }

  // strings.Split(s, sep) for a one-character separator: at least one piece, none containing `sep`.
  function Split(s: string, sep: char): (pieces: seq<string>)
    ensures |pieces| >= 1
  {
    if s == "" then [""] else Prepended(s[0], Split(s[1..], sep), sep)
  }

  lemma PrependedJoined(c: char, x: seq<string>, y: seq<string>, sep: char)
    requires |x| >= 1
    ensures Prepended(c, x + y, sep) == Prepended(c, x, sep) + y
  {
    if c == sep {
      assert [""] + (x + y) == [""] + x + y;
    } else {
      assert (x + y)[1..] == x[1..] + y;
      assert [[c] + x[0]] + (x[1..] + y) == [[c] + x[0]] + x[1..] + y;
    }
  }

  /** Splitting is a homomorphism: the separator between two texts is a boundary between their pieces. */
  lemma {:induction false} SplitJoined(a: string, b: string, sep: char)
    ensures Split(a + [sep] + b, sep) == Split(a, sep) + Split(b, sep)
  {
    var s := a + [sep] + b;
    if a == "" {
      assert s[0] == sep && s[1..] == b;
    } else {
      SplitJoined(a[1..], b, sep);
      assert s[0] == a[0] && s[1..] == a[1..] + [sep] + b;
      PrependedJoined(a[0], Split(a[1..], sep), Split(b, sep), sep);
    }
  }

  lemma {:induction false} SplitWhole(s: string, sep: char)
    requires sep !in s
    ensures Split(s, sep) == [s]
  {
    if s != "" {
      SplitWhole(s[1..], sep);
      assert [s[0]] + s[1..] == s;
    }
  }

  /** unicode.IsSpace: the White_Space characters. */
  predicate IsSpace(c: char) {
    c in "\t\n\r " || c in "\U{0B}\U{0C}\U{85}\U{A0}\U{1680}" || '\U{2000}' <= c <= '\U{200A}'
    || c in "\U{2028}\U{2029}\U{202F}\U{205F}\U{3000}"
  }

  function TrimLeft(s: string): string {
    if s != "" && IsSpace(s[0]) then TrimLeft(s[1..]) else s
  }

  function TrimRight(s: string): string {
    if s != "" && IsSpace(s[|s| - 1]) then TrimRight(s[..|s| - 1]) else s
  }

  function TrimSpace(s: string): string {
    TrimRight(TrimLeft(s))
  }

  /** A text with no space at either end is not changed, with or without a space put before it. */
  lemma TrimPrinted(s: string)
    requires s != "" && !IsSpace(s[0]) && !IsSpace(s[|s| - 1])
    ensures TrimSpace(s) == s == TrimSpace(" " + s)
  {
    assert (" " + s)[1..] == s;
  }

  predicate AllSpaces(s: string) {
    forall i :: 0 <= i < |s| ==> IsSpace(s[i])
  }

  /** Nothing is left, or what is left begins and ends with other characters. */
  predicate CleanEnds(s: string) {
    s == "" || (!IsSpace(s[0]) && !IsSpace(s[|s| - 1]))
  }

  lemma {:induction false} LeftTrimmed(a: string, s: string)
    requires AllSpaces(a) && (s == "" || !IsSpace(s[0]))
    ensures TrimLeft(a + s) == s
  {
    if a == "" {
      assert a + s == s;
    } else {
      assert (a + s)[1..] == a[1..] + s;
      LeftTrimmed(a[1..], s);
    }
  }

  lemma {:induction false} RightTrimmed(s: string, b: string)
    requires AllSpaces(b) && (s == "" || !IsSpace(s[|s| - 1]))
    ensures TrimRight(s + b) == s
  {
    if b == "" {
      assert s + b == s;
    } else {
      assert (s + b)[..|s + b| - 1] == s + b[..|b| - 1];
      RightTrimmed(s, b[..|b| - 1]);
    }
  }

  /** Trimming takes away the spaces at both ends and nothing else. */
  lemma SpacesTrimmed(a: string, s: string, b: string)
    requires AllSpaces(a) && AllSpaces(b) && CleanEnds(s)
    ensures TrimSpace(a + s + b) == s
  {
    if s == "" {
      assert a + s + b == a + b + "";
      LeftTrimmed(a + b, "");
    } else {
      assert a + s + b == a + (s + b);
      LeftTrimmed(a, s + b);
      RightTrimmed(s, b);
    }
  }

  predicate Contains(s: string, sub: string) {
    sub <= s || (s != "" && Contains(s[1..], sub))
  }

  lemma PrefixContained(s: string, sub: string)
    requires sub <= s
    ensures Contains(s, sub)
  {
  }

  lemma {:induction false} ContainedAt(s: string, sub: string) returns (p: nat)
    requires Contains(s, sub)
    ensures p <= |s| && sub <= s[p..]
  {
    if sub <= s {
      p := 0;
    } else {
      p := ContainedAt(s[1..], sub);
      p := p + 1;
    }
  }

  /** A text contains another exactly if it has it as a stretch somewhere. */
  lemma {:induction false} ContainsAnywhere(a: string, sub: string, b: string)
    ensures Contains(a + sub + b, sub)
  {
    var s := a + sub + b;
    if a == "" {
      assert sub <= s;
    } else {
      assert s[1..] == a[1..] + sub + b;
      ContainsAnywhere(a[1..], sub, b);
    }
  }

  /** What a text contains it has all characters of. */
  lemma ContainedCharacter(s: string, sub: string, c: char)
    requires Contains(s, sub) && c in sub
    ensures c in s
  {
    var p := ContainedAt(s, sub);
    var i :| 0 <= i < |sub| && sub[i] == c;
    assert s[p..][i] == s[p + i] == c;
  }

  /** A text with the character `c` only at place `i` can contain `sub` only where their `c` meet. */
  lemma ContainedOnlyThere(s: string, sub: string, c: char, i: nat, j: nat)
    requires j < |sub| && sub[j] == c && forall k :: 0 <= k < |s| && s[k] == c ==> k == i
    ensures Contains(s, sub) ==> j <= i <= |s| + j && sub <= s[i - j..]
  {
    if Contains(s, sub) {
      var p := ContainedAt(s, sub);
      assert s[p + j] == s[p..][j] == sub[j];
    }
  }

  // The second result of strings.Cut(s, sep) for a one-character separator.
  function CutAfter(s: string, sep: char): string {
    if s == "" then "" else if s[0] == sep then s[1..] else CutAfter(s[1..], sep)
  }

  lemma {:induction false} CutPrefix(name: string, value: string, sep: char)
    requires sep !in name
    ensures CutAfter(name + [sep] + value, sep) == value
  {
    if name == "" {
      assert name + [sep] + value == [sep] + value;
    } else {
      CutPrefix(name[1..], value, sep);
      assert (name + [sep] + value)[1..] == name[1..] + [sep] + value;
    }
  }

  /** Nothing is after a separator that is not there. */
  lemma {:induction false} CutNothing(s: string, sep: char)
    requires sep !in s
    ensures CutAfter(s, sep) == ""
  {
    if s != "" {
      CutNothing(s[1..], sep);
    }
  }

  /** bytes.Compare(a, b) < 0, the order in which a bolt cursor lists its keys. */
  predicate Before(a: string, b: string) {
    b != "" && (a == "" || a[0] < b[0] || (a[0] == b[0] && Before(a[1..], b[1..])))
  }

  /** The first difference decides, and what ends there comes first. */
  lemma {:induction false} BeforeAtDifference(p: string, x: char, s: string, y: char, t: string)
    requires x != y
    ensures Before(p + [x] + s, p + [y] + t) <==> x < y
    ensures Before(p, p + [y] + t) && !Before(p + [y] + t, p)
  {
    if p == "" {
      assert p + [x] + s == [x] + s && p + [y] + t == [y] + t;
    } else {
      assert (p + [x] + s)[1..] == p[1..] + [x] + s && (p + [y] + t)[1..] == p[1..] + [y] + t;
      BeforeAtDifference(p[1..], x, s, y, t);
    }
  }

  /** Of two different texts exactly one is before the other. */
  lemma {:induction false} BeforeIsTotal(a: string, b: string)
    ensures Before(a, b) || Before(b, a) <==> a != b
    ensures !(Before(a, b) && Before(b, a))
  {
    if a != "" && b != "" && a[0] == b[0] {
      BeforeIsTotal(a[1..], b[1..]);
      assert a == [a[0]] + a[1..] && b == [b[0]] + b[1..];
    }
  }

  lemma {:induction false} BeforeIsTransitive(a: string, b: string, c: string)
    requires Before(a, b) && Before(b, c)
    ensures Before(a, c)
  {
    if a != "" && a[0] == b[0] == c[0] {
      BeforeIsTransitive(a[1..], b[1..], c[1..]);
    }
  }

  /** A set of texts has a first one. */
  lemma {:induction false} First(texts: set<string>) returns (k: string)
    requires texts != {}
    ensures k in texts && forall l :: l in texts && l != k ==> Before(k, l)
    decreases |texts|
  {
    k :| k in texts;
    if texts - {k} != {} {
      var m := First(texts - {k});
      BeforeIsTotal(k, m);
      if Before(m, k) {
        k := m;
      } else {
        forall l | l in texts && l != k && l != m ensures Before(k, l) {
          BeforeIsTransitive(k, m, l);
        }
      }
    }
  }

  // strings.LastIndexByte: the last position of `c`, or -1.
  method LastIndexByte(s: string, c: char) returns (i: int)
    ensures -1 <= i < |s|
    ensures i >= 0 ==> s[i] == c
    ensures forall j :: i < j < |s| ==> s[j] != c
  {
    i := |s| - 1;
    while i >= 0 && s[i] != c
      invariant -1 <= i < |s|
      invariant forall j :: i < j < |s| ==> s[j] != c
    {
      i := i - 1;
    }
  }

  const MAX_INT64: int := 0x7FFF_FFFF_FFFF_FFFF
  const MIN_INT64: int := -0x8000_0000_0000_0000
  const MAX_UINT64: int := 0xFFFF_FFFF_FFFF_FFFF

  datatype Scan = Number(n: nat) | SyntaxError | RangeError

  predicate IsDigit(c: char) { '0' <= c <= '9' }

  lemma DigitIsPlain(c: char)
    requires IsDigit(c)
    ensures !IsSpace(c) && c != ';' && c != '-'
  {
  }

  // The digit loop of strconv.ParseUint: the first fault met decides which error is reported.
  function ParseUint(s: string, acc: nat): Scan
  {
    if s == "" then Number(acc)
    else if !IsDigit(s[0]) then SyntaxError
    else
      var n := acc * 10 + (s[0] as int - '0' as int);
      if n > MAX_UINT64 then RangeError else ParseUint(s[1..], n)
  }

  // The first result of strconv.Atoi: zero on a syntax error, the nearest int64 on a range error.
  function Atoi(s: string): (n: int)
    ensures MIN_INT64 <= n <= MAX_INT64
  {
    var digits := if s != "" && s[0] in "+-" then s[1..] else s;
    if digits == "" then 0 else
      match ParseUint(digits, 0)
      case SyntaxError => 0
      case RangeError => if s[0] == '-' then MIN_INT64 else MAX_INT64
      case Number(n) =>
        var m: int := n;
        if s[0] == '-' then (if m > -MIN_INT64 then MIN_INT64 else -m)
        else if m > MAX_INT64 then MAX_INT64 else m
  }

  // strconv.Itoa for a natural number.
  function Itoa(n: nat): (s: string)
    ensures s != "" && forall c :: c in s ==> IsDigit(c)
  {
    var last := [('0' as int + n % 10) as char];
    if n < 10 then last else Itoa(n / 10) + last
  }

  lemma {:induction false} ParseAppended(s: string, c: char, acc: nat, n: nat)
    requires ParseUint(s, acc) == Number(n) && IsDigit(c)
    ensures ParseUint(s + [c], acc) == ParseUint([c], n)
  {
    if s == "" {
      assert s + [c] == [c];
    } else {
      assert (s + [c])[1..] == s[1..] + [c];
      ParseAppended(s[1..], c, acc * 10 + (s[0] as int - '0' as int), n);
    }
  }

  lemma {:induction false} ParsePrinted(n: nat)
    requires n <= MAX_UINT64
    ensures ParseUint(Itoa(n), 0) == Number(n)
  {
    var last := ('0' as int + n % 10) as char;
    if n >= 10 {
      ParsePrinted(n / 10);
      ParseAppended(Itoa(n / 10), last, 0, n / 10);
    }
    assert [last][1..] == "";
  }

  /** Reading a printed number gives the number back, for every natural number an int64 holds. */
  lemma AtoiPrinted(n: nat)
    requires n <= MAX_INT64
    ensures Atoi(Itoa(n)) == n
  {
    ParsePrinted(n);
    assert IsDigit(Itoa(n)[0]);
  }

  // ---------- What Atoi makes of any text ----------

  predicate AllDigits(s: string) {
    forall i :: 0 <= i < |s| ==> IsDigit(s[i])
  }

  /** The number that decimal digits stand for, `acc` standing before them. */
  function Value(s: string, acc: nat): nat
    requires AllDigits(s)
  {
    if s == "" then acc else Value(s[1..], 10 * acc + (s[0] as int - '0' as int))
  }

  lemma {:induction false} ValueGrows(s: string, acc: nat)
    requires AllDigits(s)
    ensures Value(s, acc) >= acc
  {
    if s != "" {
      ValueGrows(s[1..], 10 * acc + (s[0] as int - '0' as int));
    }
  }

  /** Digits are read to their number, unless it does not fit. */
  lemma {:induction false} DigitsRead(s: string, acc: nat)
    requires AllDigits(s) && acc <= MAX_UINT64
    ensures ParseUint(s, acc) == if Value(s, acc) <= MAX_UINT64 then Number(Value(s, acc)) else RangeError
  {
    if s != "" {
      var n := 10 * acc + (s[0] as int - '0' as int);
      ValueGrows(s[1..], n);
      if n <= MAX_UINT64 {
        DigitsRead(s[1..], n);
      }
    }
  }

  /** Something else after digits is a syntax error, unless the digits alone do not fit. */
  lemma {:induction false} OtherRead(s: string, c: char, rest: string, acc: nat)
    requires AllDigits(s) && !IsDigit(c) && acc <= MAX_UINT64
    ensures ParseUint(s + [c] + rest, acc) == if Value(s, acc) <= MAX_UINT64 then SyntaxError else RangeError
  {
    var t := s + [c] + rest;
    if s == "" {
      assert t[0] == c;
    } else {
      var n := 10 * acc + (s[0] as int - '0' as int);
      assert t[0] == s[0] && t[1..] == s[1..] + [c] + rest;
      ValueGrows(s[1..], n);
      if n <= MAX_UINT64 {
        OtherRead(s[1..], c, rest, n);
      }
    }
  }

  /** The nearest int64. */
  function Clamped(x: int): int {
    if x < -0x8000_0000_0000_0000 then -0x8000_0000_0000_0000
    else if x > 0x7FFF_FFFF_FFFF_FFFF then 0x7FFF_FFFF_FFFF_FFFF else x
  }

  /** Digits, with or without a sign, give the nearest int64. */
  lemma AtoiOfDigits(s: string)
    requires s != "" && AllDigits(s)
    ensures Atoi(s) == Clamped(Value(s, 0)) == Atoi("+" + s)
    ensures Atoi("-" + s) == Clamped(0 - Value(s, 0))
  {
    assert s[0] in s && ("+" + s)[1..] == s && ("-" + s)[1..] == s;
    DigitsRead(s, 0);
  }

  /** Without digits the result is zero, and so it is if something else follows digits that fit. */
  lemma AtoiOfOther(sign: string, s: string, c: char, rest: string)
    requires sign in ["", "+", "-"] && AllDigits(s) && !IsDigit(c) && Value(s, 0) <= MAX_UINT64
    requires sign == "" && s == "" ==> c !in "+-"
    ensures Atoi(sign) == 0
    ensures Atoi(sign + s + [c] + rest) == 0
  {
    var t := s + [c] + rest;
    assert sign + s + [c] + rest == sign + t && t != "";
    OtherRead(s, c, rest, 0);
    if sign == "" {
      assert sign + t == t && t[0] == if s == "" then c else s[0];
    } else {
      assert (sign + t)[1..] == t && (sign + t)[0] == sign[0];
    }
  }
}
