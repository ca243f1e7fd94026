/** Cache-Control of a request: what the loader makes of it, and what the header says. */
module RequestDirectives {
  import opened Wrappers
  import opened GoStrings
  import opened CacheControl

  datatype RequestDirectives = RequestDirectives(
    maxAge: Time, maxStale: int, minFresh: Time,
    noCache: bool, noStore: bool, noTransform: bool, onlyIfCached: bool)

  const REQUEST_DEFAULT := RequestDirectives(NULL_TIME, 0, NULL_TIME, false, false, false, false)

  const MAX_STALE := "max-stale"
  const MIN_FRESH := "min-fresh"

  /** A trimmed piece of the header as the request switch tells them apart. */
  datatype Token =
    | OnlyIfCached | NoCache | NoStore | NoTransform
    | MaxAge(age: int) | MaxStale(age: int) | MinFresh(age: int) | Unknown

  predicate IsFlag(v: string) {
    v in ["only-if-cached", "no-cache", "no-store", "no-transform"]
  }

  function Lexed(v: string): Token {
    if v == "only-if-cached" then OnlyIfCached
    else if v == "no-cache" then NoCache
    else if v == "no-store" then NoStore
    else if v == "no-transform" then NoTransform
    else if Contains(v, MAX_AGE) then MaxAge(Age(v))
    else if Contains(v, MAX_STALE) then MaxStale(Age(v))
    else if Contains(v, MIN_FRESH) then MinFresh(Age(v))
    else Unknown
  }

  /** One turn of the request switch. */
  function Updated(r: RequestDirectives, t: Token, now: Time): RequestDirectives {
    match t
    case OnlyIfCached => r.(onlyIfCached := true)
    case NoCache => r.(noCache := true)
    case NoStore => r.(noStore := true)
    case NoTransform => r.(noTransform := true)
    case MaxAge(age) => r.(maxAge := Until(now, age, INFINITY_TIME))
    case MaxStale(age) => r.(maxStale := age)
    case MinFresh(age) => r.(minFresh := Deadline(now, age))
    case Unknown => r
  }

  function Fold(r: RequestDirectives, tokens: seq<Token>, now: Time): RequestDirectives {
    if tokens == [] then r
    else Updated(Fold(r, tokens[..|tokens| - 1], now), tokens[|tokens| - 1], now)
  }

  function AllLexed(pieces: seq<string>): (tokens: seq<Token>)
    ensures |tokens| == |pieces|
  {
    seq(|pieces|, i requires 0 <= i < |pieces| => Lexed(pieces[i]))
  }

  function Tokens(header: string): seq<Token> {
    AllLexed(Trimmed(header))
  }

  function RequestOf(header: string, now: Time): RequestDirectives {
    Fold(REQUEST_DEFAULT, Tokens(header), now)
  }

  method LoadRequestDirectives(header: string, now: Time) returns (r: RequestDirectives)
    ensures r == RequestOf(header, now)
  {
    r := REQUEST_DEFAULT;
    var pieces := SplitAndTrim(header);
    ghost var tokens := AllLexed(pieces);
    for i := 0 to |pieces|
      invariant r == Fold(REQUEST_DEFAULT, tokens[..i], now)
    {
      assert tokens[..i + 1][..i] == tokens[..i];
      r := Updated(r, Lexed(pieces[i]), now);
    }
    assert tokens[..|tokens|] == tokens;
  }

  // ---------- What a header says, apart from the order in which it is read ----------

  /** The flags a text raises and the numbers it sets, if any. */
  datatype Delta = Delta(
    onlyIfCached: bool, noCache: bool, noStore: bool, noTransform: bool,
    maxAge: Option<Time>, maxStale: Option<int>, minFresh: Option<Time>)

  /** The last max-age among the tokens. */
  function LastMaxAge(tokens: seq<Token>, now: Time): Option<Time> {
    if tokens == [] then None
    else
      match tokens[|tokens| - 1]
      case MaxAge(age) => Some(Until(now, age, INFINITY_TIME))
      case _ => LastMaxAge(tokens[..|tokens| - 1], now)
  }

  /** The last max-stale among the tokens. */
  function LastMaxStale(tokens: seq<Token>): Option<int> {
    if tokens == [] then None
    else
      match tokens[|tokens| - 1]
      case MaxStale(age) => Some(age)
      case _ => LastMaxStale(tokens[..|tokens| - 1])
  }

  /** The last min-fresh among the tokens. */
  function LastMinFresh(tokens: seq<Token>, now: Time): Option<Time> {
    if tokens == [] then None
    else
      match tokens[|tokens| - 1]
      case MinFresh(age) => Some(Deadline(now, age))
      case _ => LastMinFresh(tokens[..|tokens| - 1], now)
  }

  function Meaning(tokens: seq<Token>, now: Time): Delta {
    Delta(OnlyIfCached in tokens, NoCache in tokens, NoStore in tokens, NoTransform in tokens,
          LastMaxAge(tokens, now), LastMaxStale(tokens), LastMinFresh(tokens, now))
  }

  function DeltaOf(header: string, now: Time): Delta {
    Meaning(Tokens(header), now)
  }

  /** Flags are OR-ed, the later number wins. */
  function Combined(a: Delta, b: Delta): Delta {
    Delta(a.onlyIfCached || b.onlyIfCached, a.noCache || b.noCache, a.noStore || b.noStore,
          a.noTransform || b.noTransform,
          Later(a.maxAge, b.maxAge), Later(a.maxStale, b.maxStale), Later(a.minFresh, b.minFresh))
  }

  function Applied(r: RequestDirectives, d: Delta): RequestDirectives {
    RequestDirectives(if d.maxAge.Some? then d.maxAge.value else r.maxAge,
                      if d.maxStale.Some? then d.maxStale.value else r.maxStale,
                      if d.minFresh.Some? then d.minFresh.value else r.minFresh,
                      r.noCache || d.noCache, r.noStore || d.noStore,
                      r.noTransform || d.noTransform, r.onlyIfCached || d.onlyIfCached)
  }

  /** What one token says. */
  lemma MeaningOfOne(t: Token, now: Time)
    ensures Meaning([t], now) ==
            Delta(t == OnlyIfCached, t == NoCache, t == NoStore, t == NoTransform,
                  if t.MaxAge? then Some(Until(now, t.age, INFINITY_TIME)) else None,
                  if t.MaxStale? then Some(t.age) else None,
                  if t.MinFresh? then Some(Deadline(now, t.age)) else None)
  {
    var none: seq<Token> := [];
    assert [t][..0] == none;
    assert LastMaxAge(none, now) == None && LastMaxStale(none) == None && LastMinFresh(none, now) == None;
    assert forall x: Token :: x in [t] <==> x == t;
  }

  lemma {:induction false} MeaningJoined(a: seq<Token>, b: seq<Token>, now: Time)
    ensures Meaning(a + b, now) == Combined(Meaning(a, now), Meaning(b, now))
  {
    if b == [] {
      assert a + b == a;
    } else {
      assert (a + b)[..|a + b| - 1] == a + b[..|b| - 1];
      MeaningJoined(a, b[..|b| - 1], now);
    }
  }

  lemma {:induction false} FoldMeaning(r: RequestDirectives, tokens: seq<Token>, now: Time)
    ensures Fold(r, tokens, now) == Applied(r, Meaning(tokens, now))
  {
    if tokens != [] {
      var init, t := tokens[..|tokens| - 1], tokens[|tokens| - 1];
      FoldMeaning(r, init, now);
      MeaningOfOne(t, now);
      MeaningJoined(init, [t], now);
      assert tokens == init + [t];
    }
  }

  /** The loaded record, for any header: every flag named anywhere, and the last number of each kind. */
  lemma RequestMeaning(header: string, now: Time)
    ensures RequestOf(header, now) == Applied(REQUEST_DEFAULT, DeltaOf(header, now))
  {
    FoldMeaning(REQUEST_DEFAULT, Tokens(header), now);
  }

  /** A flag is up exactly if some piece of the header is its name. */
  lemma RequestFlagsNamed(header: string, now: Time)
    ensures var r, pieces := RequestOf(header, now), Trimmed(header);
            && (r.onlyIfCached <==> "only-if-cached" in pieces)
            && (r.noCache <==> "no-cache" in pieces)
            && (r.noStore <==> "no-store" in pieces)
            && (r.noTransform <==> "no-transform" in pieces)
  {
    RequestMeaning(header, now);
    var pieces := Trimmed(header);
    LexedIn(pieces, "only-if-cached");
    LexedIn(pieces, "no-cache");
    LexedIn(pieces, "no-store");
    LexedIn(pieces, "no-transform");
  }

  lemma LexedIn(pieces: seq<string>, name: string)
    requires IsFlag(name)
    ensures Lexed(name) in AllLexed(pieces) <==> name in pieces
  {
    if name in pieces {
      var i :| 0 <= i < |pieces| && pieces[i] == name;
      assert AllLexed(pieces)[i] == Lexed(name);
    }
    if Lexed(name) in AllLexed(pieces) {
      var i :| 0 <= i < |pieces| && AllLexed(pieces)[i] == Lexed(name);
      assert pieces[i] == name;
    }
  }

  lemma TokensJoined(a: string, b: string)
    ensures Tokens(a + ";" + b) == Tokens(a) + Tokens(b)
  {
    TrimmedJoined(a, b);
  }

  /** What a header says is a homomorphism from ';'-joining to the combination of deltas. */
  lemma DeltaJoined(a: string, b: string, now: Time)
    ensures DeltaOf(a + ";" + b, now) == Combined(DeltaOf(a, now), DeltaOf(b, now))
  {
    TokensJoined(a, b);
    MeaningJoined(Tokens(a), Tokens(b), now);
  }

  /** Merging two loaded records: flags OR-ed, the later number unless it is still the default. */
  function Merged(a: RequestDirectives, b: RequestDirectives): RequestDirectives {
    RequestDirectives(if b.maxAge != NULL_TIME then b.maxAge else a.maxAge,
                      if b.maxStale != 0 then b.maxStale else a.maxStale,
                      if b.minFresh != NULL_TIME then b.minFresh else a.minFresh,
                      a.noCache || b.noCache, a.noStore || b.noStore,
                      a.noTransform || b.noTransform, a.onlyIfCached || b.onlyIfCached)
  }

  /** `b` names, as the last of its kind, a number equal to the default, and `a` has set another. */
  predicate ResetsNumber(a: string, b: string, now: Time) {
    || (DeltaOf(b, now).maxStale == Some(0) && RequestOf(a, now).maxStale != 0)
    || (DeltaOf(b, now).maxAge == Some(NULL_TIME) && RequestOf(a, now).maxAge != NULL_TIME)
    || (DeltaOf(b, now).minFresh == Some(NULL_TIME) && RequestOf(a, now).minFresh != NULL_TIME)
  }

  /**
   Loading "a;b" updates the record of `a` by what `b` says. It is the merge of the two loaded records
   exactly when `b` does not reset a number that `a` sets: once loaded, an explicit "max-stale=0" looks
   like a max-stale never named.
   */
  lemma RequestJoined(a: string, b: string, now: Time)
    ensures RequestOf(a + ";" + b, now) == Applied(RequestOf(a, now), DeltaOf(b, now))
    ensures RequestOf(a + ";" + b, now) == Merged(RequestOf(a, now), RequestOf(b, now))
            <==> !ResetsNumber(a, b, now)
  {
    DeltaJoined(a, b, now);
    RequestMeaning(a, now);
    RequestMeaning(b, now);
    RequestMeaning(a + ";" + b, now);
  }

  // ---------- Numbers, in units and pieces ----------

  lemma LexedFlag(v: string)
    requires IsFlag(v)
    ensures !Lexed(v).MaxAge? && !Lexed(v).MaxStale? && !Lexed(v).MinFresh? && !Lexed(v).Unknown?
  {
  }

  lemma LexedOther(v: string)
    requires !IsFlag(v)
    ensures Lexed(v) == if Contains(v, MAX_AGE) then MaxAge(Age(v))
                        else if Contains(v, MAX_STALE) then MaxStale(Age(v))
                        else if Contains(v, MIN_FRESH) then MinFresh(Age(v)) else Unknown
  {
  }

  lemma FlagNamesNoMaximum(v: string, name: string)
    requires IsFlag(v) && name in [MAX_AGE, MAX_STALE]
    ensures !Contains(v, name)
  {
    assert MAX_AGE[2] == 'x' && MAX_STALE[2] == 'x';
    assert 'x' in name && 'x' !in v;
    if Contains(v, name) {
      ContainedCharacter(v, name, 'x');
    }
  }

  lemma FlagNamesNoMinimum(v: string)
    requires IsFlag(v)
    ensures !Contains(v, MIN_FRESH)
  {
    assert MIN_FRESH[1] == 'i' && MIN_FRESH[0] == 'm';
    assert 'i' !in v || 'm' !in v;
    if Contains(v, MIN_FRESH) {
      ContainedCharacter(v, MIN_FRESH, 'i');
      ContainedCharacter(v, MIN_FRESH, 'm');
    }
  }

  /** What makes a piece a number: containing the name, in the order max-age, max-stale, min-fresh. */
  lemma LexedNumbers(v: string)
    ensures Lexed(v).MaxAge? <==> Contains(v, MAX_AGE)
    ensures Lexed(v).MaxStale? <==> Contains(v, MAX_STALE) && !Contains(v, MAX_AGE)
    ensures Lexed(v).MinFresh? <==> Contains(v, MIN_FRESH) && !Contains(v, MAX_AGE) && !Contains(v, MAX_STALE)
    ensures Lexed(v).MaxAge? || Lexed(v).MaxStale? || Lexed(v).MinFresh? ==> Lexed(v).age == Age(v)
  {
    if IsFlag(v) {
      LexedFlag(v);
      FlagNamesNoMaximum(v, MAX_AGE);
      FlagNamesNoMaximum(v, MAX_STALE);
      FlagNamesNoMinimum(v);
    } else {
      LexedOther(v);
    }
  }

  lemma {:induction false} LastMaxAgeAt(tokens: seq<Token>, now: Time, i: nat)
    requires i < |tokens| && tokens[i].MaxAge? && forall j :: i < j < |tokens| ==> !tokens[j].MaxAge?
    ensures LastMaxAge(tokens, now) == Some(Until(now, tokens[i].age, INFINITY_TIME))
  {
    if i < |tokens| - 1 {
      LastMaxAgeAt(tokens[..|tokens| - 1], now, i);
    }
  }

  lemma {:induction false} LastMaxStaleAt(tokens: seq<Token>, i: nat)
    requires i < |tokens| && tokens[i].MaxStale? && forall j :: i < j < |tokens| ==> !tokens[j].MaxStale?
    ensures LastMaxStale(tokens) == Some(tokens[i].age)
  {
    if i < |tokens| - 1 {
      LastMaxStaleAt(tokens[..|tokens| - 1], i);
    }
  }

  lemma {:induction false} LastMinFreshAt(tokens: seq<Token>, now: Time, i: nat)
    requires i < |tokens| && tokens[i].MinFresh? && forall j :: i < j < |tokens| ==> !tokens[j].MinFresh?
    ensures LastMinFresh(tokens, now) == Some(Deadline(now, tokens[i].age))
  {
    if i < |tokens| - 1 {
      LastMinFreshAt(tokens[..|tokens| - 1], now, i);
    }
  }

  lemma {:induction false} NoLastNumber(tokens: seq<Token>, now: Time)
    ensures (forall t :: t in tokens ==> !t.MaxAge?) ==> LastMaxAge(tokens, now) == None
    ensures (forall t :: t in tokens ==> !t.MaxStale?) ==> LastMaxStale(tokens) == None
    ensures (forall t :: t in tokens ==> !t.MinFresh?) ==> LastMinFresh(tokens, now) == None
  {
    if tokens != [] {
      NoLastNumber(tokens[..|tokens| - 1], now);
      assert tokens[|tokens| - 1] in tokens;
    }
  }

  /** What kind of number each piece of a header is. */
  lemma AllNumbers(pieces: seq<string>)
    ensures forall j :: 0 <= j < |pieces| ==>
              (AllLexed(pieces)[j].MaxAge? <==> Contains(pieces[j], "max-age"))
    ensures forall j :: 0 <= j < |pieces| ==>
              (AllLexed(pieces)[j].MaxStale? <==>
                Contains(pieces[j], "max-stale") && !Contains(pieces[j], "max-age"))
    ensures forall j :: 0 <= j < |pieces| ==>
              (AllLexed(pieces)[j].MinFresh? <==>
                Contains(pieces[j], "min-fresh")
                && !Contains(pieces[j], "max-age") && !Contains(pieces[j], "max-stale"))
  {
    forall j | 0 <= j < |pieces|
      ensures AllLexed(pieces)[j].MaxAge? <==> Contains(pieces[j], "max-age")
      ensures AllLexed(pieces)[j].MaxStale? <==> Contains(pieces[j], "max-stale") && !Contains(pieces[j], "max-age")
      ensures AllLexed(pieces)[j].MinFresh? <==>
                Contains(pieces[j], "min-fresh") && !Contains(pieces[j], "max-age") && !Contains(pieces[j], "max-stale")
    {
      LexedNumbers(pieces[j]);
    }
  }

  /** The last piece that contains "max-age" sets that end: its number in seconds, and zero is without end. */
  lemma MaxAgeNamed(header: string, now: Time, i: nat)
    requires i < |Trimmed(header)| && Contains(Trimmed(header)[i], "max-age")
    requires forall j :: i < j < |Trimmed(header)| ==> !Contains(Trimmed(header)[j], "max-age")
    ensures var age := Atoi(CutAfter(Trimmed(header)[i], '='));
            RequestOf(header, now).maxAge
            == if age == 0 then 252_458_294_400_000_000_000 else now + Wrap64(age * 1_000_000_000)
  {
    AllNumbers(Trimmed(header));
    LexedNumbers(Trimmed(header)[i]);
    LastMaxAgeAt(Tokens(header), now, i);
    RequestMeaning(header, now);
  }

  /** The last max-stale among pieces without "max-age" sets the allowed staleness, in nanoseconds. */
  lemma MaxStaleNamed(header: string, now: Time, i: nat)
    requires var pieces := Trimmed(header);
             && i < |pieces| && Contains(pieces[i], "max-stale") && !Contains(pieces[i], "max-age")
             && forall j :: i < j < |pieces| ==> !Contains(pieces[j], "max-stale") || Contains(pieces[j], "max-age")
    ensures RequestOf(header, now).maxStale == Atoi(CutAfter(Trimmed(header)[i], '='))
  {
    AllNumbers(Trimmed(header));
    LexedNumbers(Trimmed(header)[i]);
    LastMaxStaleAt(Tokens(header), i);
    RequestMeaning(header, now);
  }

  /** The last min-fresh among pieces without the other names is a point of time, in seconds from now. */
  lemma MinFreshNamed(header: string, now: Time, i: nat)
    requires var pieces := Trimmed(header);
             && i < |pieces| && Contains(pieces[i], "min-fresh")
             && !Contains(pieces[i], "max-age") && !Contains(pieces[i], "max-stale")
             && forall j :: i < j < |pieces| ==>
                  !Contains(pieces[j], "min-fresh")
                  || Contains(pieces[j], "max-age") || Contains(pieces[j], "max-stale")
    ensures var age := Atoi(CutAfter(Trimmed(header)[i], '='));
            RequestOf(header, now).minFresh == now + Wrap64(age * 1_000_000_000)
  {
    AllNumbers(Trimmed(header));
    LexedNumbers(Trimmed(header)[i]);
    LastMinFreshAt(Tokens(header), now, i);
    RequestMeaning(header, now);
  }

  /** Numbers that no piece names. */
  lemma NumbersUnnamed(header: string, now: Time)
    ensures (forall v :: v in Trimmed(header) ==> !Contains(v, "max-age")) ==>
              RequestOf(header, now).maxAge == -62_135_596_800_000_000_000
    ensures (forall v :: v in Trimmed(header) ==> !Contains(v, "max-stale") || Contains(v, "max-age")) ==>
              RequestOf(header, now).maxStale == 0
    ensures (forall v :: v in Trimmed(header) ==>
               !Contains(v, "min-fresh") || Contains(v, "max-age") || Contains(v, "max-stale")) ==>
              RequestOf(header, now).minFresh == -62_135_596_800_000_000_000
  {
    AllNumbers(Trimmed(header));
    NoLastNumber(Tokens(header), now);
    RequestMeaning(header, now);
  }

  /** A request without Cache-Control asks for nothing. */
  lemma NothingAsked(now: Time)
    ensures RequestOf("", now) == RequestDirectives(-62_135_596_800_000_000_000, 0, -62_135_596_800_000_000_000,
                                                    false, false, false, false)
  {
    EmptyHeader();
    RequestMeaning("", now);
    assert Tokens("") == [Unknown];
    MeaningOfOne(Unknown, now);
  }

  /** The flags and max-stale do not depend on when the header is read. */
  lemma RequestFlagsAreTimeless(header: string, t0: Time, t1: Time)
    ensures RequestOf(header, t0)
         == RequestOf(header, t1).(maxAge := RequestOf(header, t0).maxAge, minFresh := RequestOf(header, t0).minFresh)
  {
    RequestMeaning(header, t0);
    RequestMeaning(header, t1);
  }

  // ---------- Printing directives and loading them again ----------

  /** Tokens a client can write: everything but unknown ones, ages within an int64. */
  predicate Writable(t: Token) {
    match t
    case MaxAge(age) => 0 <= age <= MAX_INT64
    case MaxStale(age) => 0 <= age <= MAX_INT64
    case MinFresh(age) => 0 <= age <= MAX_INT64
    case Unknown => false
    case _ => true
  }

  function Spelled(t: Token): string
    requires Writable(t)
  {
    match t
    case OnlyIfCached => "only-if-cached"
    case NoCache => "no-cache"
    case NoStore => "no-store"
    case NoTransform => "no-transform"
    case MaxAge(age) => MAX_AGE + "=" + Itoa(age)
    case MaxStale(age) => MAX_STALE + "=" + Itoa(age)
    case MinFresh(age) => MIN_FRESH + "=" + Itoa(age)
  }

  function AllSpelled(tokens: seq<Token>): (pieces: seq<string>)
    requires forall t :: t in tokens ==> Writable(t)
    ensures |pieces| == |tokens|
  {
    seq(|tokens|, i requires 0 <= i < |tokens| => Spelled(tokens[i]))
  }

  function Printed(tokens: seq<Token>): string
    requires forall t :: t in tokens ==> Writable(t)
  {
    Listed(AllSpelled(tokens))
  }

  /** A piece with '=' is none of the flags, so its content decides. */
  lemma LexedByContent(v: string)
    requires '=' in v
    ensures Lexed(v) == if Contains(v, MAX_AGE) then MaxAge(Age(v))
                        else if Contains(v, MAX_STALE) then MaxStale(Age(v))
                        else if Contains(v, MIN_FRESH) then MinFresh(Age(v)) else Unknown
  {
    assert '=' !in "only-if-cached" && '=' !in "no-cache" && '=' !in "no-store" && '=' !in "no-transform";
    LexedOther(v);
  }

  /** A piece that begins with "max-age". */
  lemma LexedAsMaxAge(v: string)
    requires MAX_AGE <= v && '=' in v
    ensures Lexed(v) == MaxAge(Age(v))
  {
    LexedByContent(v);
    PrefixContained(v, MAX_AGE);
  }

  lemma LexedMaxAge(age: nat, v: string)
    requires age <= MAX_INT64 && v == MAX_AGE + "=" + Itoa(age)
    ensures Plain(v) && Lexed(v) == MaxAge(age)
  {
    NumberedPiece(MAX_AGE, age);
    OneHyphen(MAX_AGE, age, 3);
    LexedAsMaxAge(v);
  }

  /** A piece that begins with "max-stale" and has no hyphen but that one. */
  lemma LexedAsMaxStale(v: string)
    requires MAX_STALE <= v && '=' in v && forall k :: 0 <= k < |v| && v[k] == '-' ==> k == 3
    ensures Lexed(v) == MaxStale(Age(v))
  {
    LexedByContent(v);
    PrefixContained(v, MAX_STALE);
    ContainedOnlyThere(v, MAX_AGE, '-', 3, 3);
    assert v[3 - 3..] == v && v[4] == MAX_STALE[4] != MAX_AGE[4];
  }

  /** A piece that begins with "min-fresh" and has no hyphen but that one. */
  lemma LexedAsMinFresh(v: string)
    requires MIN_FRESH <= v && '=' in v && forall k :: 0 <= k < |v| && v[k] == '-' ==> k == 3
    ensures Lexed(v) == MinFresh(Age(v))
  {
    LexedByContent(v);
    PrefixContained(v, MIN_FRESH);
    ContainedOnlyThere(v, MAX_AGE, '-', 3, 3);
    ContainedOnlyThere(v, MAX_STALE, '-', 3, 3);
    assert v[3 - 3..] == v && v[1] == MIN_FRESH[1] != MAX_AGE[1] && v[1] != MAX_STALE[1];
  }

  lemma LexedMaxStale(age: nat, v: string)
    requires age <= MAX_INT64 && v == MAX_STALE + "=" + Itoa(age)
    ensures Plain(v) && Lexed(v) == MaxStale(age)
  {
    NumberedPiece(MAX_STALE, age);
    OneHyphen(MAX_STALE, age, 3);
    LexedAsMaxStale(v);
  }

  lemma LexedMinFresh(age: nat, v: string)
    requires age <= MAX_INT64 && v == MIN_FRESH + "=" + Itoa(age)
    ensures Plain(v) && Lexed(v) == MinFresh(age)
  {
    NumberedPiece(MIN_FRESH, age);
    OneHyphen(MIN_FRESH, age, 3);
    LexedAsMinFresh(v);
  }

  lemma LexedSpelled(t: Token)
    requires Writable(t)
    ensures Plain(Spelled(t)) && Lexed(Spelled(t)) == t
  {
    match t
    case MaxAge(age) => LexedMaxAge(age, Spelled(t));
    case MaxStale(age) => LexedMaxStale(age, Spelled(t));
    case MinFresh(age) => LexedMinFresh(age, Spelled(t));
    case OnlyIfCached =>
    case NoCache =>
    case NoStore =>
    case NoTransform =>
  }

  lemma OneNumber(t: Token, now: Time)
    requires Writable(t)
    ensures RequestOf(Spelled(t), now) == Applied(REQUEST_DEFAULT, Meaning([t], now))
    ensures Meaning([t], now).maxAge == if t.MaxAge? then Some(Until(now, t.age, INFINITY_TIME)) else None
    ensures Meaning([t], now).maxStale == if t.MaxStale? then Some(t.age) else None
    ensures Meaning([t], now).minFresh == if t.MinFresh? then Some(Deadline(now, t.age)) else None
  {
    LexedSpelled(t);
    OnePiece(Spelled(t));
    RequestMeaning(Spelled(t), now);
    MeaningOfOne(t, now);
  }

  /** max-age and min-fresh count seconds from now, max-stale counts nanoseconds. */
  lemma NumbersInUnits(n: nat, now: Time)
    requires 0 < n <= 9_223_372_036
    ensures RequestOf("max-age" + "=" + Itoa(n), now).maxAge == now + n * 1_000_000_000
    ensures RequestOf("min-fresh" + "=" + Itoa(n), now).minFresh == now + n * 1_000_000_000
    ensures RequestOf("max-stale" + "=" + Itoa(n), now).maxStale == n
  {
    OneNumber(MaxAge(n), now);
    OneNumber(MinFresh(n), now);
    OneNumber(MaxStale(n), now);
  }

  /** Printing tokens and reading the header back gives the same tokens in the same order. */
  lemma TokensPrinted(tokens: seq<Token>)
    requires tokens != [] && forall t :: t in tokens ==> Writable(t)
    ensures Tokens(Printed(tokens)) == tokens
  {
    var pieces := AllSpelled(tokens);
    forall i | 0 <= i < |tokens| ensures Plain(pieces[i]) && Lexed(pieces[i]) == tokens[i] {
      LexedSpelled(tokens[i]);
    }
    PiecesListed(pieces);
  }

  /** A request's wishes as a client states them: flags, and numbers if any. */
  datatype Wishes = Wishes(
    onlyIfCached: bool, noCache: bool, noStore: bool, noTransform: bool,
    maxAge: Option<nat>, maxStale: Option<nat>, minFresh: Option<nat>)

  function Only(present: bool, t: Token): seq<Token> {
    if present then [t] else []
  }

  function Number(o: Option<nat>): nat {
    if o.Some? then o.value else 0
  }

  function WishTokens(w: Wishes): seq<Token> {
    Only(w.onlyIfCached, OnlyIfCached) + Only(w.noCache, NoCache)
    + Only(w.noStore, NoStore) + Only(w.noTransform, NoTransform)
    + Only(w.maxAge.Some?, MaxAge(Number(w.maxAge)))
    + Only(w.maxStale.Some?, MaxStale(Number(w.maxStale)))
    + Only(w.minFresh.Some?, MinFresh(Number(w.minFresh)))
  }

  predicate InRange(w: Wishes) {
    Number(w.maxAge) <= MAX_INT64 && Number(w.maxStale) <= MAX_INT64 && Number(w.minFresh) <= MAX_INT64
  }

  /** What the wishes stand for when they are received at `now`. */
  function Received(w: Wishes, now: Time): RequestDirectives {
    RequestDirectives(if w.maxAge.Some? then Until(now, w.maxAge.value, INFINITY_TIME) else NULL_TIME,
                      Number(w.maxStale),
                      if w.minFresh.Some? then Deadline(now, w.minFresh.value) else NULL_TIME,
                      w.noCache, w.noStore, w.noTransform, w.onlyIfCached)
  }

  /** `tokens` followed by an optional token says what `tokens` says and what that token says. */
  lemma MeaningWith(tokens: seq<Token>, present: bool, t: Token, now: Time)
    ensures Meaning(tokens + Only(present, t), now)
         == (if present then Combined(Meaning(tokens, now), Meaning([t], now)) else Meaning(tokens, now))
  {
    MeaningJoined(tokens, [t], now);
    assert tokens + [] == tokens;
  }

  lemma MeaningOfFlags(w: Wishes, now: Time) returns (flags: seq<Token>)
    ensures flags == Only(w.onlyIfCached, OnlyIfCached) + Only(w.noCache, NoCache)
                     + Only(w.noStore, NoStore) + Only(w.noTransform, NoTransform)
    ensures Meaning(flags, now) == Delta(w.onlyIfCached, w.noCache, w.noStore, w.noTransform, None, None, None)
  {
    MeaningOfOne(OnlyIfCached, now);
    MeaningOfOne(NoCache, now);
    MeaningOfOne(NoStore, now);
    MeaningOfOne(NoTransform, now);
    MeaningWith([], w.onlyIfCached, OnlyIfCached, now);
    flags := Only(w.onlyIfCached, OnlyIfCached);
    assert [] + flags == flags;
    MeaningWith(flags, w.noCache, NoCache, now);
    flags := flags + Only(w.noCache, NoCache);
    MeaningWith(flags, w.noStore, NoStore, now);
    flags := flags + Only(w.noStore, NoStore);
    MeaningWith(flags, w.noTransform, NoTransform, now);
    flags := flags + Only(w.noTransform, NoTransform);
  }

  lemma MeaningOfWishes(w: Wishes, now: Time)
    ensures Applied(REQUEST_DEFAULT, Meaning(WishTokens(w), now)) == Received(w, now)
  {
    var tokens := MeaningOfFlags(w, now);
    var a, s, f := MaxAge(Number(w.maxAge)), MaxStale(Number(w.maxStale)), MinFresh(Number(w.minFresh));
    MeaningOfOne(a, now);
    MeaningOfOne(s, now);
    MeaningOfOne(f, now);
    MeaningWith(tokens, w.maxAge.Some?, a, now);
    tokens := tokens + Only(w.maxAge.Some?, a);
    MeaningWith(tokens, w.maxStale.Some?, s, now);
    tokens := tokens + Only(w.maxStale.Some?, s);
    MeaningWith(tokens, w.minFresh.Some?, f, now);
  }

  lemma WritableWishes(w: Wishes)
    requires InRange(w)
    ensures forall t :: t in WishTokens(w) ==> Writable(t)
  {
    var flags := Only(w.onlyIfCached, OnlyIfCached) + Only(w.noCache, NoCache)
      + Only(w.noStore, NoStore) + Only(w.noTransform, NoTransform);
    assert forall t :: t in flags ==> Writable(t);
    forall t | t in WishTokens(w) && t !in flags ensures Writable(t) {
      assert t in [MaxAge(Number(w.maxAge)), MaxStale(Number(w.maxStale)), MinFresh(Number(w.minFresh))];
    }
  }

  /** Loading printed wishes gives back their flags and numbers, whatever the numbers are. */
  lemma WishesRoundTrip(w: Wishes, now: Time)
    requires InRange(w)
    ensures forall t :: t in WishTokens(w) ==> Writable(t)
    ensures RequestOf(Printed(WishTokens(w)), now) == Received(w, now)
  {
    var tokens := WishTokens(w);
    MeaningOfWishes(w, now);
    WritableWishes(w);
    RequestMeaning(Printed(tokens), now);
    if tokens == [] {
      EmptyHeader();
      assert Tokens("") == [Unknown];
      MeaningOfOne(Unknown, now);
    } else {
      TokensPrinted(tokens);
    }
  }

  /** Merging loaded records loses an explicit zero: "max-stale=n" joined with "max-stale=0" allows nothing. */
  lemma ZeroStaleIsLost(n: nat, now: Time)
    requires 0 < n <= MAX_INT64
    ensures var a, b := Printed([MaxStale(n)]), Printed([MaxStale(0)]);
            && RequestOf(a + ";" + b, now).maxStale == 0
            && Merged(RequestOf(a, now), RequestOf(b, now)).maxStale == n
  {
    var a, b := [MaxStale(n)], [MaxStale(0)];
    TokensPrinted(a);
    TokensPrinted(b);
    MeaningOfOne(a[0], now);
    MeaningOfOne(b[0], now);
    RequestMeaning(Printed(a), now);
    RequestMeaning(Printed(b), now);
    RequestJoined(Printed(a), Printed(b), now);
  }
}
