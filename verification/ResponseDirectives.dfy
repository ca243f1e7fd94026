/** Cache-Control of a response: what the loader makes of it, and what the header says. */
module ResponseDirectives {
  import opened Wrappers
  import opened GoStrings
  import opened CacheControl

  datatype ResponseDirectives = ResponseDirectives(
    mustRevalidate: bool, noCache: bool, noStore: bool, noTransform: bool,
    isPrivate: bool, proxyRevalidate: bool, maxAge: Time, sMaxAge: Time)

  const RESPONSE_DEFAULT :=
    ResponseDirectives(false, false, false, false, false, false, INFINITY_TIME, NULL_TIME)

  const S_MAXAGE := "s-maxage"

  /** A trimmed piece of the header as the response switch tells them apart. */
  datatype Token =
    | MustRevalidate | NoCache | NoStore | NoTransform | Private | ProxyRevalidate
    | MaxAge(age: int) | SMaxAge(age: int) | Unknown

  predicate IsFlag(v: string) {
    v in ["must-revalidate", "no-cache", "no-store", "no-transform", "private", "proxy-revalidate"]
  }

  function Lexed(v: string): Token {
    if v == "must-revalidate" then MustRevalidate
    else if v == "no-cache" then NoCache
    else if v == "no-store" then NoStore
    else if v == "no-transform" then NoTransform
    else if v == "private" then Private
    else if v == "proxy-revalidate" then ProxyRevalidate
    else if Contains(v, MAX_AGE) then MaxAge(Age(v))
    else if Contains(v, S_MAXAGE) then SMaxAge(Age(v))
    else Unknown
  }

  /** One turn of the response switch. */
  function Updated(r: ResponseDirectives, t: Token, now: Time): ResponseDirectives {
    match t
    case MustRevalidate => r.(mustRevalidate := true)
    case NoCache => r.(noCache := true)
    case NoStore => r.(noStore := true)
    case NoTransform => r.(noTransform := true)
    case Private => r.(isPrivate := true)
    case ProxyRevalidate => r.(proxyRevalidate := true)
    case MaxAge(age) => r.(maxAge := Until(now, age, INFINITY_TIME))
    case SMaxAge(age) => r.(sMaxAge := Until(now, age, NULL_TIME))
    case Unknown => r
  }

  function Fold(r: ResponseDirectives, tokens: seq<Token>, now: Time): ResponseDirectives {
    if tokens == [] then r
    else Updated(Fold(r, tokens[..|tokens| - 1], now), tokens[|tokens| - 1], now)
  }

  function AllLexed(pieces: seq<string>): (tokens: seq<Token>)
    ensures |tokens| == |pieces|
  {
    seq(|pieces|, i requires 0 <= i < |pieces| => Lexed(pieces[i]))
  }

  function Tokens(header: string): seq<Token> {
    AllLexed(Trimmed(header))
  }

  function ResponseOf(header: string, now: Time): ResponseDirectives {
    Fold(RESPONSE_DEFAULT, Tokens(header), now)
  }

  method LoadResponseDirectives(header: string, now: Time) returns (r: ResponseDirectives)
    ensures r == ResponseOf(header, now)
  {
    r := RESPONSE_DEFAULT;
    var pieces := SplitAndTrim(header);
    ghost var tokens := AllLexed(pieces);
    for i := 0 to |pieces|
      invariant r == Fold(RESPONSE_DEFAULT, tokens[..i], now)
    {
      assert tokens[..i + 1][..i] == tokens[..i];
      r := Updated(r, Lexed(pieces[i]), now);
    }
    assert tokens[..|tokens|] == tokens;
  }

  // ---------- What a header says, apart from the order in which it is read ----------

  /** The flags a text raises and the lifetimes it sets, if any. */
  datatype Delta = Delta(
    mustRevalidate: bool, noCache: bool, noStore: bool, noTransform: bool,
    isPrivate: bool, proxyRevalidate: bool, maxAge: Option<Time>, sMaxAge: Option<Time>)

  /** The last max-age among the tokens. */
  function LastMaxAge(tokens: seq<Token>, now: Time): Option<Time> {
    if tokens == [] then None
    else
      match tokens[|tokens| - 1]
      case MaxAge(age) => Some(Until(now, age, INFINITY_TIME))
      case _ => LastMaxAge(tokens[..|tokens| - 1], now)
  }

  /** The last s-maxage among the tokens. */
  function LastSMaxAge(tokens: seq<Token>, now: Time): Option<Time> {
    if tokens == [] then None
    else
      match tokens[|tokens| - 1]
      case SMaxAge(age) => Some(Until(now, age, NULL_TIME))
      case _ => LastSMaxAge(tokens[..|tokens| - 1], now)
  }

  function Meaning(tokens: seq<Token>, now: Time): Delta {
    Delta(MustRevalidate in tokens, NoCache in tokens, NoStore in tokens, NoTransform in tokens,
          Private in tokens, ProxyRevalidate in tokens, LastMaxAge(tokens, now), LastSMaxAge(tokens, now))
  }

  function DeltaOf(header: string, now: Time): Delta {
    Meaning(Tokens(header), now)
  }

  /** Flags are OR-ed, the later lifetime wins. */
  function Combined(a: Delta, b: Delta): Delta {
    Delta(a.mustRevalidate || b.mustRevalidate, a.noCache || b.noCache, a.noStore || b.noStore,
          a.noTransform || b.noTransform, a.isPrivate || b.isPrivate,
          a.proxyRevalidate || b.proxyRevalidate, Later(a.maxAge, b.maxAge), Later(a.sMaxAge, b.sMaxAge))
  }

  function Applied(r: ResponseDirectives, d: Delta): ResponseDirectives {
    ResponseDirectives(r.mustRevalidate || d.mustRevalidate, r.noCache || d.noCache,
                       r.noStore || d.noStore, r.noTransform || d.noTransform,
                       r.isPrivate || d.isPrivate, r.proxyRevalidate || d.proxyRevalidate,
                       if d.maxAge.Some? then d.maxAge.value else r.maxAge,
                       if d.sMaxAge.Some? then d.sMaxAge.value else r.sMaxAge)
  }

  /** What one token says. */
  lemma MeaningOfOne(t: Token, now: Time)
    ensures Meaning([t], now) ==
            Delta(t == MustRevalidate, t == NoCache, t == NoStore, t == NoTransform, t == Private,
                  t == ProxyRevalidate,
                  if t.MaxAge? then Some(Until(now, t.age, INFINITY_TIME)) else None,
                  if t.SMaxAge? then Some(Until(now, t.age, NULL_TIME)) else None)
  {
    var none: seq<Token> := [];
    assert [t][..0] == none;
    assert LastMaxAge(none, now) == None && LastSMaxAge(none, now) == None;
    assert forall x: Token :: x in [t] <==> x == t;
  }

  lemma AppliedInTurn(r: ResponseDirectives, a: Delta, b: Delta)
    ensures Applied(Applied(r, a), b) == Applied(r, Combined(a, b))
  {
  }

  lemma {:induction false} MeaningJoined(a: seq<Token>, b: seq<Token>, now: Time)
    ensures Meaning(a + b, now) == Combined(Meaning(a, now), Meaning(b, now))
  {
    if b == [] {
      assert a + b == a;
    } else {
      assert (a + b)[..|a + b| - 1] == a + b[..|b| - 1];
      MeaningJoined(a, b[..|b| - 1], now);
    }
  }

  lemma {:induction false} FoldMeaning(r: ResponseDirectives, tokens: seq<Token>, now: Time)
    ensures Fold(r, tokens, now) == Applied(r, Meaning(tokens, now))
  {
    if tokens != [] {
      var init, t := tokens[..|tokens| - 1], tokens[|tokens| - 1];
      FoldMeaning(r, init, now);
      MeaningOfOne(t, now);
      AppliedInTurn(r, Meaning(init, now), Meaning([t], now));
      MeaningJoined(init, [t], now);
      assert tokens == init + [t];
    }
  }

  /** The loaded record, for any header: every flag named anywhere, and the last lifetimes named. */
  lemma ResponseMeaning(header: string, now: Time)
    ensures ResponseOf(header, now) == Applied(RESPONSE_DEFAULT, DeltaOf(header, now))
  {
    FoldMeaning(RESPONSE_DEFAULT, Tokens(header), now);
  }

  /** A flag is up exactly if some piece of the header is its name. */
  lemma ResponseFlagsNamed(header: string, now: Time)
    ensures var r, pieces := ResponseOf(header, now), Trimmed(header);
            && (r.mustRevalidate <==> "must-revalidate" in pieces)
            && (r.noCache <==> "no-cache" in pieces)
            && (r.noStore <==> "no-store" in pieces)
            && (r.noTransform <==> "no-transform" in pieces)
            && (r.isPrivate <==> "private" in pieces)
            && (r.proxyRevalidate <==> "proxy-revalidate" in pieces)
  {
    ResponseMeaning(header, now);
    var pieces := Trimmed(header);
    LexedIn(pieces, "must-revalidate");
    LexedIn(pieces, "no-cache");
    LexedIn(pieces, "no-store");
    LexedIn(pieces, "no-transform");
    LexedIn(pieces, "private");
    LexedIn(pieces, "proxy-revalidate");
  }

  lemma LexedIn(pieces: seq<string>, name: string)
    requires IsFlag(name)
    ensures Lexed(name) in AllLexed(pieces) <==> name in pieces
  {
    if name in pieces {
      var i :| 0 <= i < |pieces| && pieces[i] == name;
      assert AllLexed(pieces)[i] == Lexed(name);
    }
    if Lexed(name) in AllLexed(pieces) {
      var i :| 0 <= i < |pieces| && AllLexed(pieces)[i] == Lexed(name);
      assert pieces[i] == name;
    }
  }

  // ---------- Lifetimes, in seconds and pieces ----------

  lemma FlagNamesNoLifetime(v: string, name: string)
    requires IsFlag(v) && name in [MAX_AGE, S_MAXAGE]
    ensures !Contains(v, name)
  {
    assert MAX_AGE[5] == 'g' && S_MAXAGE[6] == 'g';
    assert 'g' in name && 'g' !in v;
    if Contains(v, name) {
      ContainedCharacter(v, name, 'g');
    }
  }

  lemma LexedFlag(v: string)
    requires IsFlag(v)
    ensures !Lexed(v).MaxAge? && !Lexed(v).SMaxAge? && !Lexed(v).Unknown?
  {
  }

  lemma LexedOther(v: string)
    requires !IsFlag(v)
    ensures Lexed(v) == if Contains(v, MAX_AGE) then MaxAge(Age(v))
                        else if Contains(v, S_MAXAGE) then SMaxAge(Age(v)) else Unknown
  {
  }

  /** What makes a piece a lifetime: containing the name, and max-age before s-maxage. */
  lemma LexedLifetimes(v: string)
    ensures Lexed(v).MaxAge? <==> Contains(v, MAX_AGE)
    ensures Lexed(v).SMaxAge? <==> Contains(v, S_MAXAGE) && !Contains(v, MAX_AGE)
    ensures Lexed(v).MaxAge? || Lexed(v).SMaxAge? ==> Lexed(v).age == Age(v)
  {
    if IsFlag(v) {
      LexedFlag(v);
      FlagNamesNoLifetime(v, MAX_AGE);
      FlagNamesNoLifetime(v, S_MAXAGE);
    } else {
      LexedOther(v);
    }
  }

  lemma {:induction false} LastMaxAgeAt(tokens: seq<Token>, now: Time, i: nat)
    requires i < |tokens| && tokens[i].MaxAge? && forall j :: i < j < |tokens| ==> !tokens[j].MaxAge?
    ensures LastMaxAge(tokens, now) == Some(Until(now, tokens[i].age, INFINITY_TIME))
  {
    if i < |tokens| - 1 {
      LastMaxAgeAt(tokens[..|tokens| - 1], now, i);
    }
  }

  lemma {:induction false} LastSMaxAgeAt(tokens: seq<Token>, now: Time, i: nat)
    requires i < |tokens| && tokens[i].SMaxAge? && forall j :: i < j < |tokens| ==> !tokens[j].SMaxAge?
    ensures LastSMaxAge(tokens, now) == Some(Until(now, tokens[i].age, NULL_TIME))
  {
    if i < |tokens| - 1 {
      LastSMaxAgeAt(tokens[..|tokens| - 1], now, i);
    }
  }

  lemma {:induction false} NoLastLifetime(tokens: seq<Token>, now: Time)
    ensures (forall t :: t in tokens ==> !t.MaxAge?) ==> LastMaxAge(tokens, now) == None
    ensures (forall t :: t in tokens ==> !t.SMaxAge?) ==> LastSMaxAge(tokens, now) == None
  {
    if tokens != [] {
      NoLastLifetime(tokens[..|tokens| - 1], now);
      assert tokens[|tokens| - 1] in tokens;
    }
  }

  /** The last piece that contains "max-age" sets that end: its number in seconds, and zero is without end. */
  lemma MaxAgeNamed(header: string, now: Time, i: nat)
    requires i < |Trimmed(header)| && Contains(Trimmed(header)[i], "max-age")
    requires forall j :: i < j < |Trimmed(header)| ==> !Contains(Trimmed(header)[j], "max-age")
    ensures var age := Atoi(CutAfter(Trimmed(header)[i], '='));
            ResponseOf(header, now).maxAge
            == if age == 0 then 252_458_294_400_000_000_000 else now + Wrap64(age * 1_000_000_000)
  {
    var pieces := Trimmed(header);
    forall j | 0 <= j < |pieces| ensures Tokens(header)[j].MaxAge? <==> Contains(pieces[j], "max-age") {
      LexedLifetimes(pieces[j]);
    }
    LexedLifetimes(pieces[i]);
    LastMaxAgeAt(Tokens(header), now, i);
    ResponseMeaning(header, now);
  }

  /** The same for s-maxage in pieces that do not contain "max-age"; zero is as if it were not named. */
  lemma SMaxAgeNamed(header: string, now: Time, i: nat)
    requires var pieces := Trimmed(header);
             && i < |pieces| && Contains(pieces[i], "s-maxage") && !Contains(pieces[i], "max-age")
             && forall j :: i < j < |pieces| ==> !Contains(pieces[j], "s-maxage") || Contains(pieces[j], "max-age")
    ensures var age := Atoi(CutAfter(Trimmed(header)[i], '='));
            ResponseOf(header, now).sMaxAge
            == if age == 0 then -62_135_596_800_000_000_000 else now + Wrap64(age * 1_000_000_000)
  {
    var pieces := Trimmed(header);
    forall j | 0 <= j < |pieces|
      ensures Tokens(header)[j].SMaxAge? <==> Contains(pieces[j], "s-maxage") && !Contains(pieces[j], "max-age")
    {
      LexedLifetimes(pieces[j]);
    }
    LexedLifetimes(pieces[i]);
    LastSMaxAgeAt(Tokens(header), now, i);
    ResponseMeaning(header, now);
  }

  /** Lifetimes that no piece names: pages do not expire, and there is no shared lifetime. */
  lemma LifetimesUnnamed(header: string, now: Time)
    ensures (forall v :: v in Trimmed(header) ==> !Contains(v, "max-age")) ==>
              ResponseOf(header, now).maxAge == 252_458_294_400_000_000_000
    ensures (forall v :: v in Trimmed(header) ==> !Contains(v, "s-maxage") || Contains(v, "max-age")) ==>
              ResponseOf(header, now).sMaxAge == -62_135_596_800_000_000_000
  {
    var pieces, tokens := Trimmed(header), Tokens(header);
    forall j | 0 <= j < |pieces|
      ensures tokens[j].MaxAge? <==> Contains(pieces[j], "max-age")
      ensures tokens[j].SMaxAge? <==> Contains(pieces[j], "s-maxage") && !Contains(pieces[j], "max-age")
    {
      LexedLifetimes(pieces[j]);
    }
    NoLastLifetime(tokens, now);
    ResponseMeaning(header, now);
  }

  lemma NoMaxAgeSaid(header: string, now: Time)
    requires forall v :: v in Trimmed(header) ==> !Contains(v, "max-age")
    ensures DeltaOf(header, now).maxAge == None
  {
    var pieces, tokens := Trimmed(header), Tokens(header);
    forall j | 0 <= j < |pieces| ensures !tokens[j].MaxAge? {
      LexedLifetimes(pieces[j]);
    }
    NoLastLifetime(tokens, now);
  }

  /** The flags do not depend on when the header is read. */
  lemma ResponseFlagsAreTimeless(header: string, t0: Time, t1: Time)
    ensures ResponseOf(header, t0)
         == ResponseOf(header, t1).(maxAge := ResponseOf(header, t0).maxAge, sMaxAge := ResponseOf(header, t0).sMaxAge)
  {
    ResponseMeaning(header, t0);
    ResponseMeaning(header, t1);
  }

  lemma TokensJoined(a: string, b: string)
    ensures Tokens(a + ";" + b) == Tokens(a) + Tokens(b)
  {
    TrimmedJoined(a, b);
  }

  /** What a header says is a homomorphism from ';'-joining to the combination of deltas. */
  lemma DeltaJoined(a: string, b: string, now: Time)
    ensures DeltaOf(a + ";" + b, now) == Combined(DeltaOf(a, now), DeltaOf(b, now))
  {
    TokensJoined(a, b);
    MeaningJoined(Tokens(a), Tokens(b), now);
  }

  /** Merging two loaded records: flags OR-ed, the later lifetime unless it is still the default. */
  function Merged(a: ResponseDirectives, b: ResponseDirectives): ResponseDirectives {
    ResponseDirectives(a.mustRevalidate || b.mustRevalidate, a.noCache || b.noCache,
                       a.noStore || b.noStore, a.noTransform || b.noTransform,
                       a.isPrivate || b.isPrivate, a.proxyRevalidate || b.proxyRevalidate,
                       if b.maxAge != INFINITY_TIME then b.maxAge else a.maxAge,
                       if b.sMaxAge != NULL_TIME then b.sMaxAge else a.sMaxAge)
  }

  /** `b` names, as the last of its kind, a lifetime equal to the default, and `a` has set another. */
  predicate ResetsLifetime(a: string, b: string, now: Time) {
    || (DeltaOf(b, now).maxAge == Some(INFINITY_TIME) && ResponseOf(a, now).maxAge != INFINITY_TIME)
    || (DeltaOf(b, now).sMaxAge == Some(NULL_TIME) && ResponseOf(a, now).sMaxAge != NULL_TIME)
  }

  /**
   Loading "a;b" updates the record of `a` by what `b` says. It is the merge of the two loaded records
   exactly when `b` does not reset a lifetime that `a` limits: once loaded, an explicit age of zero
   looks like a lifetime never named.
   */
  lemma ResponseJoined(a: string, b: string, now: Time)
    ensures ResponseOf(a + ";" + b, now) == Applied(ResponseOf(a, now), DeltaOf(b, now))
    ensures ResponseOf(a + ";" + b, now) == Merged(ResponseOf(a, now), ResponseOf(b, now))
            <==> !ResetsLifetime(a, b, now)
  {
    DeltaJoined(a, b, now);
    ResponseMeaning(a, now);
    ResponseMeaning(b, now);
    ResponseMeaning(a + ";" + b, now);
  }

  // ---------- Printing directives and loading them again ----------

  /** Tokens an origin server can write: everything but unknown ones, ages within an int64. */
  predicate Writable(t: Token) {
    match t
    case MaxAge(age) => 0 <= age <= MAX_INT64
    case SMaxAge(age) => 0 <= age <= MAX_INT64
    case Unknown => false
    case _ => true
  }

  function Spelled(t: Token): string
    requires Writable(t)
  {
    match t
    case MustRevalidate => "must-revalidate"
    case NoCache => "no-cache"
    case NoStore => "no-store"
    case NoTransform => "no-transform"
    case Private => "private"
    case ProxyRevalidate => "proxy-revalidate"
    case MaxAge(age) => MAX_AGE + "=" + Itoa(age)
    case SMaxAge(age) => S_MAXAGE + "=" + Itoa(age)
  }

  function AllSpelled(tokens: seq<Token>): (pieces: seq<string>)
    requires forall t :: t in tokens ==> Writable(t)
    ensures |pieces| == |tokens|
  {
    seq(|tokens|, i requires 0 <= i < |tokens| => Spelled(tokens[i]))
  }

  function Printed(tokens: seq<Token>): string
    requires forall t :: t in tokens ==> Writable(t)
  {
    Listed(AllSpelled(tokens))
  }

  /** A piece with '=' is none of the flags. */
  lemma NotAFlag(v: string)
    requires '=' in v
    ensures !IsFlag(v)
  {
    assert '=' !in "must-revalidate" && '=' !in "no-cache" && '=' !in "no-store";
    assert '=' !in "no-transform" && '=' !in "private" && '=' !in "proxy-revalidate";
  }

  /** A piece that begins with "max-age". */
  lemma LexedAsMaxAge(v: string)
    requires MAX_AGE <= v && '=' in v
    ensures Lexed(v) == MaxAge(Age(v))
  {
    NotAFlag(v);
    LexedOther(v);
    PrefixContained(v, MAX_AGE);
  }

  lemma LexedMaxAge(age: nat, v: string)
    requires age <= MAX_INT64 && v == MAX_AGE + "=" + Itoa(age)
    ensures Plain(v) && Lexed(v) == MaxAge(age)
  {
    NumberedPiece(MAX_AGE, age);
    OneHyphen(MAX_AGE, age, 3);
    LexedAsMaxAge(v);
  }

  /** A piece that begins with "s-maxage" and has no hyphen but that one. */
  lemma LexedAsSMaxAge(v: string)
    requires S_MAXAGE <= v && '=' in v && forall k :: 0 <= k < |v| && v[k] == '-' ==> k == 1
    ensures Lexed(v) == SMaxAge(Age(v))
  {
    NotAFlag(v);
    LexedOther(v);
    PrefixContained(v, S_MAXAGE);
    ContainedOnlyThere(v, MAX_AGE, '-', 1, 3);
  }

  lemma LexedSMaxAge(age: nat, v: string)
    requires age <= MAX_INT64 && v == S_MAXAGE + "=" + Itoa(age)
    ensures Plain(v) && Lexed(v) == SMaxAge(age)
  {
    NumberedPiece(S_MAXAGE, age);
    OneHyphen(S_MAXAGE, age, 1);
    LexedAsSMaxAge(v);
  }

  lemma LexedSpelled(t: Token)
    requires Writable(t)
    ensures Plain(Spelled(t)) && Lexed(Spelled(t)) == t
  {
    match t
    case MaxAge(age) => LexedMaxAge(age, Spelled(t));
    case SMaxAge(age) => LexedSMaxAge(age, Spelled(t));
    case MustRevalidate =>
    case NoCache =>
    case NoStore =>
    case NoTransform =>
    case Private =>
    case ProxyRevalidate =>
  }

  lemma OneLifetime(t: Token, now: Time)
    requires Writable(t)
    ensures ResponseOf(Spelled(t), now) == Applied(RESPONSE_DEFAULT, Meaning([t], now))
    ensures Meaning([t], now).maxAge == if t.MaxAge? then Some(Until(now, t.age, INFINITY_TIME)) else None
    ensures Meaning([t], now).sMaxAge == if t.SMaxAge? then Some(Until(now, t.age, NULL_TIME)) else None
  {
    LexedSpelled(t);
    OnePiece(Spelled(t));
    ResponseMeaning(Spelled(t), now);
    MeaningOfOne(t, now);
  }

  /** "max-age=n" and "s-maxage=n" end n seconds after they are read. */
  lemma LifetimeInSeconds(n: nat, now: Time)
    requires 0 < n <= 9_223_372_036
    ensures var r := ResponseOf("max-age" + "=" + Itoa(n), now);
            r.maxAge == now + n * 1_000_000_000 && r.sMaxAge == -62_135_596_800_000_000_000
    ensures var r := ResponseOf("s-maxage" + "=" + Itoa(n), now);
            r.sMaxAge == now + n * 1_000_000_000 && r.maxAge == 252_458_294_400_000_000_000
  {
    OneLifetime(MaxAge(n), now);
    OneLifetime(SMaxAge(n), now);
  }

  /** Printing tokens and reading the header back gives the same tokens in the same order. */
  lemma TokensPrinted(tokens: seq<Token>)
    requires tokens != [] && forall t :: t in tokens ==> Writable(t)
    ensures Tokens(Printed(tokens)) == tokens
  {
    var pieces := AllSpelled(tokens);
    forall i | 0 <= i < |tokens| ensures Plain(pieces[i]) && Lexed(pieces[i]) == tokens[i] {
      LexedSpelled(tokens[i]);
    }
    PiecesListed(pieces);
  }

  /** A record as an origin server states it: flags, and lifetimes in seconds when limited. */
  datatype Policy = Policy(
    mustRevalidate: bool, noCache: bool, noStore: bool, noTransform: bool,
    isPrivate: bool, proxyRevalidate: bool, maxAge: Option<nat>, sMaxAge: Option<nat>)

  function FlagToken(raised: bool, t: Token): seq<Token> {
    if raised then [t] else []
  }

  function LifetimeToken(age: Option<nat>, shared: bool): Token {
    if age.None? then Unknown else if shared then SMaxAge(age.value) else MaxAge(age.value)
  }

  function PolicyTokens(p: Policy): seq<Token> {
    FlagToken(p.mustRevalidate, MustRevalidate) + FlagToken(p.noCache, NoCache)
    + FlagToken(p.noStore, NoStore) + FlagToken(p.noTransform, NoTransform)
    + FlagToken(p.isPrivate, Private) + FlagToken(p.proxyRevalidate, ProxyRevalidate)
    + FlagToken(p.maxAge.Some?, LifetimeToken(p.maxAge, false))
    + FlagToken(p.sMaxAge.Some?, LifetimeToken(p.sMaxAge, true))
  }

  predicate PositiveLifetime(age: Option<nat>) {
    age.Some? ==> 0 < age.value <= MAX_INT64
  }

  /** The deadlines a policy stands for when it is received at `now`. */
  function Received(p: Policy, now: Time): ResponseDirectives {
    ResponseDirectives(p.mustRevalidate, p.noCache, p.noStore, p.noTransform, p.isPrivate, p.proxyRevalidate,
                       if p.maxAge.Some? then Deadline(now, p.maxAge.value) else INFINITY_TIME,
                       if p.sMaxAge.Some? then Deadline(now, p.sMaxAge.value) else NULL_TIME)
  }

  const SILENT := Delta(false, false, false, false, false, false, None, None)

  /** `tokens` followed by an optional token says what `tokens` says and what that token says. */
  lemma MeaningWith(tokens: seq<Token>, present: bool, t: Token, now: Time)
    ensures Meaning(tokens + FlagToken(present, t), now)
         == (if present then Combined(Meaning(tokens, now), Meaning([t], now)) else Meaning(tokens, now))
  {
    MeaningJoined(tokens, [t], now);
    assert tokens + [] == tokens;
  }

  lemma MeaningOfFlags(now: Time)
    ensures Meaning([MustRevalidate], now) == SILENT.(mustRevalidate := true)
    ensures Meaning([NoCache], now) == SILENT.(noCache := true)
    ensures Meaning([NoStore], now) == SILENT.(noStore := true)
    ensures Meaning([NoTransform], now) == SILENT.(noTransform := true)
    ensures Meaning([Private], now) == SILENT.(isPrivate := true)
    ensures Meaning([ProxyRevalidate], now) == SILENT.(proxyRevalidate := true)
  {
    MeaningOfOne(MustRevalidate, now);
    MeaningOfOne(NoCache, now);
    MeaningOfOne(NoStore, now);
    MeaningOfOne(NoTransform, now);
    MeaningOfOne(Private, now);
    MeaningOfOne(ProxyRevalidate, now);
  }

  lemma MeaningOfPolicyFlags(p: Policy, now: Time)
    ensures Meaning(FlagToken(p.mustRevalidate, MustRevalidate) + FlagToken(p.noCache, NoCache)
                    + FlagToken(p.noStore, NoStore) + FlagToken(p.noTransform, NoTransform)
                    + FlagToken(p.isPrivate, Private) + FlagToken(p.proxyRevalidate, ProxyRevalidate), now)
         == Delta(p.mustRevalidate, p.noCache, p.noStore, p.noTransform, p.isPrivate, p.proxyRevalidate,
                  None, None)
  {
    MeaningOfFlags(now);
    var s1 := FlagToken(p.mustRevalidate, MustRevalidate);
    MeaningWith([], p.mustRevalidate, MustRevalidate, now);
    assert [] + s1 == s1;
    assert Meaning(s1, now) == SILENT.(mustRevalidate := p.mustRevalidate);
    var s2 := s1 + FlagToken(p.noCache, NoCache);
    MeaningWith(s1, p.noCache, NoCache, now);
    assert Meaning(s2, now) == Meaning(s1, now).(noCache := p.noCache);
    var s3 := s2 + FlagToken(p.noStore, NoStore);
    MeaningWith(s2, p.noStore, NoStore, now);
    assert Meaning(s3, now) == Meaning(s2, now).(noStore := p.noStore);
    var s4 := s3 + FlagToken(p.noTransform, NoTransform);
    MeaningWith(s3, p.noTransform, NoTransform, now);
    assert Meaning(s4, now) == Meaning(s3, now).(noTransform := p.noTransform);
    var s5 := s4 + FlagToken(p.isPrivate, Private);
    MeaningWith(s4, p.isPrivate, Private, now);
    assert Meaning(s5, now) == Meaning(s4, now).(isPrivate := p.isPrivate);
    var s6 := s5 + FlagToken(p.proxyRevalidate, ProxyRevalidate);
    MeaningWith(s5, p.proxyRevalidate, ProxyRevalidate, now);
    assert Meaning(s6, now) == Meaning(s5, now).(proxyRevalidate := p.proxyRevalidate);
  }

  lemma MeaningOfLifetimes(flags: seq<Token>, p: Policy, now: Time)
    requires PositiveLifetime(p.maxAge) && PositiveLifetime(p.sMaxAge)
    requires Meaning(flags, now).maxAge == None && Meaning(flags, now).sMaxAge == None
    ensures Meaning(flags + FlagToken(p.maxAge.Some?, LifetimeToken(p.maxAge, false))
                          + FlagToken(p.sMaxAge.Some?, LifetimeToken(p.sMaxAge, true)), now)
         == Meaning(flags, now).(
              maxAge := if p.maxAge.Some? then Some(Deadline(now, p.maxAge.value)) else None,
              sMaxAge := if p.sMaxAge.Some? then Some(Deadline(now, p.sMaxAge.value)) else None)
  {
    var m, s := LifetimeToken(p.maxAge, false), LifetimeToken(p.sMaxAge, true);
    var both := flags + FlagToken(p.maxAge.Some?, m);
    MeaningOfOne(m, now);
    MeaningOfOne(s, now);
    MeaningWith(flags, p.maxAge.Some?, m, now);
    MeaningWith(both, p.sMaxAge.Some?, s, now);
  }

  lemma MeaningOfPolicy(p: Policy, now: Time)
    requires PositiveLifetime(p.maxAge) && PositiveLifetime(p.sMaxAge)
    ensures Applied(RESPONSE_DEFAULT, Meaning(PolicyTokens(p), now)) == Received(p, now)
  {
    var flags := FlagToken(p.mustRevalidate, MustRevalidate) + FlagToken(p.noCache, NoCache)
      + FlagToken(p.noStore, NoStore) + FlagToken(p.noTransform, NoTransform)
      + FlagToken(p.isPrivate, Private) + FlagToken(p.proxyRevalidate, ProxyRevalidate);
    MeaningOfPolicyFlags(p, now);
    MeaningOfLifetimes(flags, p, now);
  }

  lemma WritablePolicy(p: Policy)
    requires PositiveLifetime(p.maxAge) && PositiveLifetime(p.sMaxAge)
    ensures forall t :: t in PolicyTokens(p) ==> Writable(t)
  {
    var flags := FlagToken(p.mustRevalidate, MustRevalidate) + FlagToken(p.noCache, NoCache)
      + FlagToken(p.noStore, NoStore) + FlagToken(p.noTransform, NoTransform)
      + FlagToken(p.isPrivate, Private) + FlagToken(p.proxyRevalidate, ProxyRevalidate);
    assert forall t :: t in flags ==> Writable(t);
    forall t | t in PolicyTokens(p) && t !in flags ensures Writable(t) {
      assert t in FlagToken(p.maxAge.Some?, LifetimeToken(p.maxAge, false))
        || t in FlagToken(p.sMaxAge.Some?, LifetimeToken(p.sMaxAge, true));
    }
  }

  /** Loading a printed policy with positive lifetimes gives back its flags and its deadlines. */
  lemma PolicyRoundTrip(p: Policy, now: Time)
    requires PositiveLifetime(p.maxAge) && PositiveLifetime(p.sMaxAge)
    ensures forall t :: t in PolicyTokens(p) ==> Writable(t)
    ensures ResponseOf(Printed(PolicyTokens(p)), now) == Received(p, now)
  {
    var tokens := PolicyTokens(p);
    MeaningOfPolicy(p, now);
    WritablePolicy(p);
    ResponseMeaning(Printed(tokens), now);
    if tokens == [] {
      EmptyHeader();
      MeaningOfOne(Unknown, now);
    } else {
      TokensPrinted(tokens);
    }
  }

  /** Merging loaded records loses an explicit zero: "max-age=n" joined with "max-age=0" is unlimited. */
  lemma ZeroAgeIsLost(limited: Token, zero: Token, now: Time)
    requires limited.MaxAge? && Writable(limited) && limited.age != 0
    requires Deadline(now, limited.age) != INFINITY_TIME
    requires zero == MaxAge(0)
    ensures var a, b := Printed([limited]), Printed([zero]);
            && ResponseOf(a + ";" + b, now).maxAge == INFINITY_TIME
            && Merged(ResponseOf(a, now), ResponseOf(b, now)).maxAge == Deadline(now, limited.age)
  {
    var a, b := [limited], [zero];
    TokensPrinted(a);
    TokensPrinted(b);
    MeaningOfOne(limited, now);
    MeaningOfOne(zero, now);
    ResponseMeaning(Printed(a), now);
    ResponseMeaning(Printed(b), now);
    ResponseJoined(Printed(a), Printed(b), now);
  }
}
