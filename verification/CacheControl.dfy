/**
 The Cache-Control header as both loaders of cache/cache.go read it: the header's first value is cut at
 ';' and every piece is trimmed. Ages in pieces become instants.
 */
module CacheControl {
  import opened Wrappers
  import opened GoStrings

  /** Nanoseconds since the Unix epoch. */
  type Time = int

  const SECOND: int := 1_000_000_000
  const NULL_TIME: Time := -62135596800 * SECOND     // time.Time{}, the first of January of year 1
  const INFINITY_TIME: Time := 252458294400 * SECOND // the epoch plus 7999 years, 12 months and 31 days

  const TWO_64: int := 0x1_0000_0000_0000_0000

  /** Two's complement wrap-around of a 64-bit result. */
  function Wrap64(x: int): (r: int)
    ensures MIN_INT64 <= r <= MAX_INT64
    ensures MIN_INT64 <= x <= MAX_INT64 ==> r == x
    ensures (r - x) % 0x1_0000_0000_0000_0000 == 0
  {
    (x + 0x8000_0000_0000_0000) % TWO_64 - 0x8000_0000_0000_0000
  }

  // time.Now().Add(time.Duration(age) * time.Second); the product wraps at 64 bits.
  function Deadline(now: Time, age: int): (t: Time)
    ensures -9_223_372_036 <= age <= 9_223_372_036 ==> t == now + age * 1_000_000_000
  {
    now + Wrap64(age * SECOND)
  }

  /** The end of a lifetime of `age` seconds, age 0 standing for `unlimited`. */
  function Until(now: Time, age: int, unlimited: Time): Time {
    if age == 0 then unlimited else Deadline(now, age)
  }

  const MAX_AGE := "max-age"

  function Age(v: string): int {
    Atoi(CutAfter(v, '='))
  }

  function Trimmed(header: string): (pieces: seq<string>) {
    var raw := Split(header, ';');
    seq(|raw|, i requires 0 <= i < |raw| => TrimSpace(raw[i]))
  }

  method SplitAndTrim(header: string) returns (pieces: seq<string>)
    ensures pieces == Trimmed(header)
  {
    var raw := Split(header, ';');
    pieces := raw;
    for i := 0 to |pieces|
      invariant |pieces| == |raw|
      invariant forall j :: 0 <= j < i ==> pieces[j] == TrimSpace(raw[j])
      invariant forall j :: i <= j < |raw| ==> pieces[j] == raw[j]
    {
      pieces := pieces[i := TrimSpace(pieces[i])];
    }
  }

  /** What is named last counts. */
  function Later<T>(a: Option<T>, b: Option<T>): Option<T> {
    if b.Some? then b else a
  }

  /** `a;b` has the pieces of `a` followed by those of `b`. */
  lemma TrimmedJoined(a: string, b: string)
    ensures Trimmed(a + ";" + b) == Trimmed(a) + Trimmed(b)
  {
    SplitJoined(a, b, ';');
  }

  // ---------- Writing pieces and reading them again ----------

  /** A piece that trimming and cutting leave as it is. */
  predicate Plain(v: string) {
    v != "" && ';' !in v && !IsSpace(v[0]) && !IsSpace(v[|v| - 1])
  }

  function Listed(pieces: seq<string>): string {
    if pieces == [] then ""
    else if |pieces| == 1 then pieces[0]
    else Listed(pieces[..|pieces| - 1]) + ";" + (" " + pieces[|pieces| - 1])
  }

  lemma OnePiece(v: string)
    requires Plain(v)
    ensures Trimmed(v) == [v] == Trimmed(" " + v)
  {
    TrimPrinted(v);
    SplitWhole(v, ';');
    SplitWhole(" " + v, ';');
  }

  /** Listing plain pieces and reading the header back gives the same pieces in the same order. */
  lemma {:induction false} PiecesListed(pieces: seq<string>)
    requires pieces != [] && forall v :: v in pieces ==> Plain(v)
    ensures Trimmed(Listed(pieces)) == pieces
  {
    var init, last := pieces[..|pieces| - 1], pieces[|pieces| - 1];
    assert last in pieces && pieces == init + [last];
    OnePiece(last);
    if |pieces| > 1 {
      assert forall v :: v in init ==> v in pieces;
      PiecesListed(init);
      TrimmedJoined(Listed(init), " " + last);
    }
  }

  /** Spaces around a single piece do not count. */
  lemma PaddedPiece(a: string, v: string, b: string)
    requires AllSpaces(a) && AllSpaces(b) && CleanEnds(v) && ';' !in v
    ensures Trimmed(a + v + b) == [v]
  {
    assert ';' !in a && ';' !in b;
    SplitWhole(a + v + b, ';');
    SpacesTrimmed(a, v, b);
  }

  lemma EmptyHeader()
    ensures Trimmed("") == [""]
  {
  }

  /** A name and a printed number: a plain piece whose age is the number. */
  lemma NumberedPiece(word: string, age: nat)
    requires word != "" && !IsSpace(word[0]) && ';' !in word && '=' !in word && age <= MAX_INT64
    ensures Plain(word + "=" + Itoa(age)) && Age(word + "=" + Itoa(age)) == age
  {
    var digits := Itoa(age);
    PlainNumber(word, digits);
    CutPrefix(word, digits, '=');
    AtoiPrinted(age);
  }

  lemma PlainNumber(word: string, digits: string)
    requires word != "" && !IsSpace(word[0]) && ';' !in word
    requires digits != "" && forall c :: c in digits ==> IsDigit(c)
    ensures Plain(word + "=" + digits)
  {
    var v, last := word + "=" + digits, digits[|digits| - 1];
    assert v[0] == word[0] && v[|v| - 1] == last;
    assert last in digits;
    DigitIsPlain(last);
    assert forall c :: c in v ==> c in word || c == '=' || c in digits;
  }

  /** A name with one hyphen keeps it as the only one when a number is written behind it. */
  lemma OneHyphen(word: string, age: nat, i: nat)
    requires i < |word| && word[i] == '-' && forall k :: 0 <= k < |word| && word[k] == '-' ==> k == i
    ensures var v := word + "=" + Itoa(age);
            v[i] == '-' && '=' in v && word <= v && forall k :: 0 <= k < |v| && v[k] == '-' ==> k == i
  {
    var digits := Itoa(age);
    var v := word + "=" + digits;
    assert v[|word|] == '=';
    forall k | |word| < k < |v| ensures v[k] != '-' {
      assert v[k] == digits[k - |word| - 1];
      DigitIsPlain(v[k]);
    }
  }
}
