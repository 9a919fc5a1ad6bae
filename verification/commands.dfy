/**
 The state-changing logic of the command callbacks in main.go: the page
 cursor of `map`/`mapb`, the cache-first fetch every API command performs, and
 the catch rule with its update of the caught-Pokemon map.

 The HTTP request and JSON decoding are outside the model: they appear as
 the function parameters `http` (a URL to a payload or a failure) and
 `decode` (a payload to a record or a failure). The random roll is a
 parameter in [0, 100).
 */
module Commands {
  import opened PokeCache

  // ---------------------------------------------------------------------------
  // Cache-first fetch
  // ---------------------------------------------------------------------------

  /** Outcome of a step that can fail (`err != nil` in main.go). */
  datatype Fetched<T> = Fetched(value: T) | Failed

  /**
   When the fetch of `url` succeeds: a hit whose payload decodes, or a miss
   whose request and decoding both succeed.
   */
  predicate FetchSucceeds<T>(c: Cache, url: string,
                             http: string -> Fetched<Bytes>,
                             decode: Bytes -> Fetched<T>) {
    if Get(c, url).found then decode(Get(c, url).val).Fetched?
    else http(url).Fetched? && decode(http(url).value).Fetched?
  }

  /**
   The fetch shared by every API command: a cache hit is decoded; on a miss
   the payload is requested, decoded, and stored under the URL only once it
   decoded. Any error is returned before the cache is written.
   */
  function FetchCached<T(==)>(c: Cache, now: int, url: string,
                              http: string -> Fetched<Bytes>,
                              decode: Bytes -> Fetched<T>): (r: (Cache, Fetched<T>))
    ensures Get(c, url).found ==> r.0 == c && r.1 == decode(Get(c, url).val)
    ensures r.1.Fetched? <==> FetchSucceeds(c, url, http, decode)
    ensures r.1.Failed? ==> r.0 == c
    ensures r.1.Fetched? ==> Get(r.0, url).found && r.1 == decode(Get(r.0, url).val)
    ensures !Get(c, url).found && http(url).Fetched? && decode(http(url).value).Fetched? ==>
      r.1 == decode(http(url).value) && r.0 == Add(c, now, url, http(url).value)
    ensures !Get(c, url).found && r.1.Fetched? ==>
      http(url).Fetched? && r.0 == Add(c, now, url, http(url).value)
    ensures forall k :: k != url ==> Get(r.0, k) == Get(c, k)
    ensures r.0.reaper == c.reaper && r.0.interval == c.interval
  {
    var hit := Get(c, url);
    if hit.found then (c, decode(hit.val))
    else
      match http(url)
      case Failed => (c, Failed)
      case Fetched(data) =>
        match decode(data)
        case Failed => (c, Failed)
        case Fetched(v) => (Add(c, now, url, data), Fetched(v))
  }

  /**
   Memoisation: once a fetch succeeded, fetching the same URL again (with no
   sweep in between) answers the same value from the cache, whatever the
   network would now say, and writes nothing.
   */
  lemma FetchCachedMemoises<T>(c: Cache, now: int, later: int, url: string,
                                   http: string -> Fetched<Bytes>, http2: string -> Fetched<Bytes>,
                                   decode: Bytes -> Fetched<T>)
    requires FetchCached(c, now, url, http, decode).1.Fetched?
    ensures var (c1, v) := FetchCached(c, now, url, http, decode);
      FetchCached(c1, later, url, http2, decode) == (c1, v)
  {
  }

  // ---------------------------------------------------------------------------
  // Page cursor of `map` / `mapb`
  // ---------------------------------------------------------------------------

  /** The `config` struct: the URLs of the next and the previous page. */
  datatype Config = Config(next: string, previous: string)

  /** The start-up cursor set in `main`. */
  const FirstPage := "https://pokeapi.co/api/v2/location-area/?offset=0&limit=20"
  const InitialConfig := Config(FirstPage, "")

  /** The decoded fields of a location-area page that the commands read. */
  datatype LocationPage = LocationPage(next: string, previous: string, names: seq<string>)

  /** The link value the commands treat as "no such page". */
  const NullLink := "null"

  /** One cursor field: take the page's link unless it is the literal "null". */
  function UpdateLink(current: string, incoming: string): string {
    if incoming != NullLink then incoming else current
  }

  /** Both cursor fields, each from its own link of the page. */
  function UpdateCursor(cfg: Config, page: LocationPage): (r: Config)
    ensures page.next != NullLink ==> r.next == page.next
    ensures page.next == NullLink ==> r.next == cfg.next
    ensures page.previous != NullLink ==> r.previous == page.previous
    ensures page.previous == NullLink ==> r.previous == cfg.previous
  {
    Config(UpdateLink(cfg.next, page.next), UpdateLink(cfg.previous, page.previous))
  }

  /** Applying the same page twice moves the cursor as once. */
  lemma UpdateCursorIdempotent(cfg: Config, page: LocationPage)
    ensures UpdateCursor(UpdateCursor(cfg, page), page) == UpdateCursor(cfg, page)
  {
  }

  /** A cursor that holds no "null" link never acquires one. */
  lemma UpdateCursorNeverNull(cfg: Config, page: LocationPage)
    requires cfg.next != NullLink && cfg.previous != NullLink
    ensures UpdateCursor(cfg, page).next != NullLink
    ensures UpdateCursor(cfg, page).previous != NullLink
  {
  }

  /** The two fields move independently: each depends only on its own pair of inputs. */
  lemma UpdateCursorFieldsIndependent(cfg1: Config, page1: LocationPage, cfg2: Config, page2: LocationPage)
    ensures cfg1.next == cfg2.next && page1.next == page2.next ==>
      UpdateCursor(cfg1, page1).next == UpdateCursor(cfg2, page2).next
    ensures cfg1.previous == cfg2.previous && page1.previous == page2.previous ==>
      UpdateCursor(cfg1, page1).previous == UpdateCursor(cfg2, page2).previous
  {
  }

  datatype Status = Ok | Error

  /** What a browsing command leaves behind: the cursor, the cache and the error status. */
  datatype Browsed = Browsed(cfg: Config, cache: Cache, status: Status)

  /** Fetch the page at `url` through the cache and move the cursor by it. */
  function Browse(cfg: Config, c: Cache, now: int, url: string,
                  http: string -> Fetched<Bytes>,
                  decode: Bytes -> Fetched<LocationPage>): (r: Browsed)
    ensures r.status == Ok <==> FetchSucceeds(c, url, http, decode)
    ensures r.status == Error ==> r.cfg == cfg && r.cache == c
    ensures r.status == Ok ==>
      var page := decode(Get(r.cache, url).val);
      && Get(r.cache, url).found
      && page.Fetched?
      && r.cfg == UpdateCursor(cfg, page.value)
    ensures forall k :: k != url ==> Get(r.cache, k) == Get(c, k)
    ensures Get(c, url).found ==> r.cache == c
    ensures !Get(c, url).found && r.status == Ok ==> r.cache == Add(c, now, url, http(url).value)
  {
    var (c1, page) := FetchCached(c, now, url, http, decode);
    match page
    case Failed => Browsed(cfg, c1, Error)
    case Fetched(p) => Browsed(UpdateCursor(cfg, p), c1, Ok)
  }

  /** `map`: browse forward from the `next` link. */
  function CommandMap(cfg: Config, c: Cache, now: int,
                      http: string -> Fetched<Bytes>,
                      decode: Bytes -> Fetched<LocationPage>): (r: Browsed)
    ensures r.status == Ok <==> FetchSucceeds(c, cfg.next, http, decode)
    ensures r.status == Error ==> r.cfg == cfg && r.cache == c
    ensures r.status == Ok ==>
      var page := decode(Get(r.cache, cfg.next).val);
      && Get(r.cache, cfg.next).found
      && page.Fetched?
      && r.cfg == UpdateCursor(cfg, page.value)
    ensures forall k :: k != cfg.next ==> Get(r.cache, k) == Get(c, k)
    ensures Get(c, cfg.next).found ==> r.cache == c
    ensures !Get(c, cfg.next).found && r.status == Ok ==>
      r.cache == Add(c, now, cfg.next, http(cfg.next).value)
  {
    Browse(cfg, c, now, cfg.next, http, decode)
  }

  /**
   `mapb`: with no `previous` link it only prints a notice; otherwise it
   browses from the `previous` link exactly as `map` does from `next`.
   */
  function CommandMapBack(cfg: Config, c: Cache, now: int,
                          http: string -> Fetched<Bytes>,
                          decode: Bytes -> Fetched<LocationPage>): (r: Browsed)
    ensures cfg.previous == "" ==> r == Browsed(cfg, c, Ok)
    ensures cfg.previous != "" ==> (r.status == Ok <==> FetchSucceeds(c, cfg.previous, http, decode))
    ensures r.status == Error ==> r.cfg == cfg && r.cache == c
    ensures cfg.previous != "" && r.status == Ok ==>
      var page := decode(Get(r.cache, cfg.previous).val);
      && Get(r.cache, cfg.previous).found
      && page.Fetched?
      && r.cfg == UpdateCursor(cfg, page.value)
    ensures forall k :: k != cfg.previous ==> Get(r.cache, k) == Get(c, k)
    ensures Get(c, cfg.previous).found ==> r.cache == c
    ensures cfg.previous != "" && !Get(c, cfg.previous).found && r.status == Ok ==>
      r.cache == Add(c, now, cfg.previous, http(cfg.previous).value)
  {
    if cfg.previous == "" then Browsed(cfg, c, Ok)
    else Browse(cfg, c, now, cfg.previous, http, decode)
  }

  /** Browsing keeps the cursor free of "null" links, forwards or backwards. */
  lemma BrowsingNeverStoresNull(cfg: Config, c: Cache, now: int,
                                http: string -> Fetched<Bytes>,
                                decode: Bytes -> Fetched<LocationPage>)
    requires cfg.next != NullLink && cfg.previous != NullLink
    ensures CommandMap(cfg, c, now, http, decode).cfg.next != NullLink
    ensures CommandMap(cfg, c, now, http, decode).cfg.previous != NullLink
    ensures CommandMapBack(cfg, c, now, http, decode).cfg.next != NullLink
    ensures CommandMapBack(cfg, c, now, http, decode).cfg.previous != NullLink
  {
  }

  // ---------------------------------------------------------------------------
  // Catching
  // ---------------------------------------------------------------------------

  /** The fields of the decoded Pokemon record that the catch logic reads. */
  datatype Pokemon = Pokemon(name: string, baseExp: int)

  /** Go's integer division, which truncates toward zero (unlike Dafny's `/`). */
  function TruncDiv(a: int, b: int): (q: int)
    requires 0 < b
    ensures 0 <= a ==> 0 <= q && q * b <= a < q * b + b
    ensures a < 0 ==> q <= 0 && q * b - b < a <= q * b
  {
    if 0 <= a then a / b else -((-a) / b)
  }

  /** `catchRate := 90 - BaseExp/10`. */
  function CatchRate(baseExp: int): (rate: int)
    ensures 0 <= baseExp ==> 10 * (90 - rate) <= baseExp < 10 * (90 - rate) + 10
    ensures baseExp < 0 ==> 10 * (90 - rate) - 10 < baseExp <= 10 * (90 - rate)
  {
    90 - TruncDiv(baseExp, 10)
  }

  /** The throw succeeds when the roll `rand.Intn(100)` is at most the rate. */
  predicate Catches(baseExp: int, roll: int)
    requires 0 <= roll < 100
  {
    roll <= CatchRate(baseExp)
  }

  /** The rolls that catch are a prefix of 0..99: a smaller roll catches too. */
  lemma CatchesIsThreshold(baseExp: int, roll: int, smaller: int)
    requires 0 <= smaller <= roll < 100
    ensures Catches(baseExp, roll) ==> Catches(baseExp, smaller)
  {
  }

  /** A non-negative base experience never gives a rate above 90. */
  lemma CatchRateAtMost90(baseExp: int)
    requires 0 <= baseExp
    ensures CatchRate(baseExp) <= 90
    ensures baseExp < 10 ==> CatchRate(baseExp) == 90
  {
  }

  /** More base experience never makes a catch easier. */
  lemma CatchRateMonotone(b1: int, b2: int)
    requires b1 <= b2
    ensures CatchRate(b2) <= CatchRate(b1)
  {
  }

  /** From a base experience of 910 on, no roll catches. */
  lemma NoCatchFrom910(baseExp: int, roll: int)
    requires 910 <= baseExp && 0 <= roll < 100
    ensures !Catches(baseExp, roll)
  {
  }

  /** Truncation matters for negative values: -5 gives the rate 90, not 91. */
  lemma CatchRateTruncates()
    ensures CatchRate(-5) == 90
    ensures CatchRate(-15) == 91
  {
  }

  function Clamp(x: int, lo: int, hi: int): int
    requires lo <= hi
  {
    if x < lo then lo else if hi < x then hi else x
  }

  /** The number of rolls in [0, n) that catch. */
  function CatchingRolls(baseExp: int, n: nat): nat
    requires n <= 100
  {
    if n == 0 then 0
    else CatchingRolls(baseExp, n - 1) + (if Catches(baseExp, n - 1) then 1 else 0)
  }

  lemma {:induction false} CatchingRollsBelow(baseExp: int, n: nat)
    requires n <= 100
    ensures CatchingRolls(baseExp, n) == Clamp(CatchRate(baseExp) + 1, 0, n)
    decreases n
  {
    if n > 0 {
      CatchingRollsBelow(baseExp, n - 1);
    }
  }

  /**
   The odds of a throw: out of the 100 equally likely rolls, exactly
   `catchRate + 1` catch, clamped to [0, 100].
   */
  lemma CatchOdds(baseExp: int)
    ensures CatchingRolls(baseExp, 100) == Clamp(CatchRate(baseExp) + 1, 0, 100)
  {
    CatchingRollsBelow(baseExp, 100);
  }

  datatype CatchOutcome = AlreadyCaught | CaughtIt | Escaped

  datatype Throw = Throw(caught: map<string, Pokemon>, outcome: CatchOutcome)

  /**
   The caught-map update of `catch`: a Pokemon already in the map (by its
   decoded name) is not thrown at; otherwise it joins the map exactly when
   the roll catches.
   */
  function TryCatch(caught: map<string, Pokemon>, p: Pokemon, roll: int): (r: Throw)
    requires 0 <= roll < 100
    ensures r.outcome == AlreadyCaught <==> p.name in caught
    ensures r.outcome == CaughtIt <==> p.name !in caught && Catches(p.baseExp, roll)
    ensures r.caught.Keys == caught.Keys + (if r.outcome == CaughtIt then {p.name} else {})
    ensures forall n :: n in caught ==> n in r.caught && r.caught[n] == caught[n]
    ensures r.outcome == CaughtIt ==> r.caught[p.name] == p
  {
    if p.name in caught then Throw(caught, AlreadyCaught)
    else if Catches(p.baseExp, roll) then Throw(caught[p.name := p], CaughtIt)
    else Throw(caught, Escaped)
  }

  /** Once caught, every later throw at the same Pokemon reports it as already caught. */
  lemma CaughtStaysCaught(caught: map<string, Pokemon>, p: Pokemon, roll: int, roll2: int)
    requires 0 <= roll < 100 && 0 <= roll2 < 100
    requires TryCatch(caught, p, roll).outcome == CaughtIt
    ensures var after := TryCatch(caught, p, roll).caught;
      TryCatch(after, p, roll2) == Throw(after, AlreadyCaught)
  {
  }

  /** Only a successful throw changes the map, and then by one entry. */
  lemma TryCatchGrowsByAtMostOne(caught: map<string, Pokemon>, p: Pokemon, roll: int)
    requires 0 <= roll < 100
    ensures TryCatch(caught, p, roll).outcome != CaughtIt ==> TryCatch(caught, p, roll).caught == caught
    ensures |TryCatch(caught, p, roll).caught| <= |caught| + 1
  {
    var r := TryCatch(caught, p, roll);
    if r.outcome == CaughtIt {
      assert r.caught.Keys == caught.Keys + {p.name};
    } else {
      assert r.caught.Keys == caught.Keys;
    }
  }

  const PokemonEndpoint := "https://pokeapi.co/api/v2/pokemon/"

  datatype CatchReply = MissingName | FetchFailed | Thrown(outcome: CatchOutcome)

  datatype Caught = Caught(caught: map<string, Pokemon>, cache: Cache, reply: CatchReply)

  /**
   `catch <name>`: an empty name is refused; otherwise the record is fetched
   through the cache and the throw is made at the decoded record.
   */
  function CommandCatch(caught: map<string, Pokemon>, c: Cache, now: int, name: string, roll: int,
                        http: string -> Fetched<Bytes>,
                        decode: Bytes -> Fetched<Pokemon>): (r: Caught)
    requires 0 <= roll < 100
    ensures name == "" ==> r == Caught(caught, c, MissingName)
    ensures name != "" ==> !r.reply.MissingName?
    ensures name != "" ==> (r.reply.Thrown? <==> FetchSucceeds(c, PokemonEndpoint + name, http, decode))
    ensures forall k :: k != PokemonEndpoint + name ==> Get(r.cache, k) == Get(c, k)
    ensures Get(c, PokemonEndpoint + name).found ==> r.cache == c
    ensures !Get(c, PokemonEndpoint + name).found && r.reply.Thrown? ==>
      r.cache == Add(c, now, PokemonEndpoint + name, http(PokemonEndpoint + name).value)
    ensures r.reply.MissingName? || r.reply.FetchFailed? ==> r.caught == caught
    ensures r.reply.FetchFailed? ==> r.cache == c
    ensures r.reply.Thrown? ==>
      var p := decode(Get(r.cache, PokemonEndpoint + name).val);
      && Get(r.cache, PokemonEndpoint + name).found
      && p.Fetched?
      && r == Caught(TryCatch(caught, p.value, roll).caught, r.cache, Thrown(TryCatch(caught, p.value, roll).outcome))
  {
    if name == "" then Caught(caught, c, MissingName)
    else
      var (c1, fetched) := FetchCached(c, now, PokemonEndpoint + name, http, decode);
      match fetched
      case Failed => Caught(caught, c1, FetchFailed)
      case Fetched(p) =>
        var t := TryCatch(caught, p, roll);
        Caught(t.caught, c1, Thrown(t.outcome))
  }

  /**
   Catching the same name twice: after a catch, a second `catch` of that name
   is answered from the cache, whatever the network and the roll, reports the
   Pokemon as already caught, and changes nothing.
   */
  lemma CatchTwiceIsAlreadyCaught(caught: map<string, Pokemon>, c: Cache, now: int, later: int,
                                  name: string, roll: int, roll2: int,
                                  http: string -> Fetched<Bytes>, http2: string -> Fetched<Bytes>,
                                  decode: Bytes -> Fetched<Pokemon>)
    requires 0 <= roll < 100 && 0 <= roll2 < 100
    requires CommandCatch(caught, c, now, name, roll, http, decode).reply == Thrown(CaughtIt)
    ensures var first := CommandCatch(caught, c, now, name, roll, http, decode);
      CommandCatch(first.caught, first.cache, later, name, roll2, http2, decode)
        == Caught(first.caught, first.cache, Thrown(AlreadyCaught))
  {
    var first := CommandCatch(caught, c, now, name, roll, http, decode);
    var url := PokemonEndpoint + name;
    var (c1, fetched) := FetchCached(c, now, url, http, decode);
    FetchCachedMemoises(c, now, later, url, http, http2, decode);
    CaughtStaysCaught(caught, fetched.value, roll, roll2);
  }
}
