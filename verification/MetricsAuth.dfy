/** The bounded, time-limited cache of allowed decisions in front of the metrics endpoint. */
module MetricsAuth {
  import Text

  datatype Code = Allowed | Unauthorized | Forbidden

  /** What TokenReview and SubjectAccessReview would answer at a time, errors included. */
  type Reviews = (string, string, string, int) -> Code

  const MAX_CACHE_ENTRIES := 256

  // in seconds
  const CACHE_TTL := 60
  const REVIEW_TIMEOUT := 10

  /** token, verb and path joined by spaces; its SHA-256 is taken to be collision-free. */
  function CacheKey(token: string, verb: string, path: string): string {
    Text.Join([token, verb, path], ' ')
  }

  /** Distinct requests have distinct keys: tokens and verbs hold no space (RFC 6750, section 2.1). */
  lemma CacheKeyIsInjective(token: string, verb: string, path: string, token': string, verb': string, path': string)
    requires ' ' !in token && ' ' !in verb && ' ' !in token' && ' ' !in verb'
    ensures CacheKey(token, verb, path) == CacheKey(token', verb', path') <==>
            token == token' && verb == verb' && path == path'
  {
    if CacheKey(token, verb, path) == CacheKey(token', verb', path') {
      Text.JoinInjective([token, verb, path], [token', verb', path'], ' ');
      assert [token, verb, path][0] == token && [token, verb, path][1] == verb && [token, verb, path][2] == path;
    }
  }

  /** The review an entry stems from: asked at one time, remembered at a later one. */
  datatype Grant = Grant(token: string, verb: string, path: string, reviewed: int, remembered: int)

  predicate Backs(reviews: Reviews, ttl: int, timeout: int, key: string, expiry: int, g: Grant) {
    && ' ' !in g.token && ' ' !in g.verb
    && key == CacheKey(g.token, g.verb, g.path)
    && reviews(g.token, g.verb, g.path, g.reviewed) == Allowed
    && g.reviewed <= g.remembered <= g.reviewed + timeout
    && expiry == g.remembered + ttl
  }

  /** Every entry is backed by a grant remembered by now. */
  ghost predicate AllBacked(reviews: Reviews, ttl: int, timeout: int, allowed: map<string, int>,
                            grants: map<string, Grant>, clock: int) {
    forall k :: k in allowed ==>
      k in grants && Backs(reviews, ttl, timeout, k, allowed[k], grants[k]) && grants[k].remembered <= clock
  }

  lemma StillBacked(reviews: Reviews, ttl: int, timeout: int, allowed: map<string, int>, grants: map<string, Grant>,
                    clock: int, fewer: map<string, int>, later: int)
    requires AllBacked(reviews, ttl, timeout, allowed, grants, clock) && clock <= later
    requires forall k :: k in fewer ==> k in allowed && fewer[k] == allowed[k]
    ensures AllBacked(reviews, ttl, timeout, fewer, grants, later)
  {}

  lemma OneMoreBacked(reviews: Reviews, ttl: int, timeout: int, allowed: map<string, int>, grants: map<string, Grant>,
                      clock: int, key: string, expiry: int, g: Grant)
    requires AllBacked(reviews, ttl, timeout, allowed, grants, clock) && g.remembered <= clock
    requires Backs(reviews, ttl, timeout, key, expiry, g)
    ensures AllBacked(reviews, ttl, timeout, allowed[key := expiry], grants[key := g], clock)
  {}

  predicate SpaceFree(token: string, verb: string) {
    ' ' !in token && ' ' !in verb
  }

  /** The review allowed the request less than a TTL and a timeout ago. */
  ghost predicate AllowedLately(reviews: Reviews, ttl: int, timeout: int, token: string, verb: string, path: string,
                                now: int) {
    exists s :: now - ttl - timeout < s <= now && reviews(token, verb, path, s) == Allowed
  }

  /** The review has been giving the same answer for that long. */
  ghost predicate Steady(reviews: Reviews, ttl: int, timeout: int, token: string, verb: string, path: string,
                         now: int) {
    forall s :: now - ttl - timeout < s <= now ==> reviews(token, verb, path, s) == reviews(token, verb, path, now)
  }

  /** Whatever live entry the cache may hold for a request now, the review allows the request now. */
  ghost predicate HitsAgreeAt(reviews: Reviews, ttl: int, timeout: int, token: string, verb: string, path: string,
                              now: int) {
    forall expiry, g: Grant ::
      Backs(reviews, ttl, timeout, CacheKey(token, verb, path), expiry, g) && g.remembered <= now < expiry ==>
        reviews(token, verb, path, now) == Allowed
  }

  /** When the latest an allow can be stored of which the review was asked at s, for use at t. */
  function StoredBy(timeout: int, s: int, t: int): int {
    if t < s + timeout then t else s + timeout
  }

  /** A hit agrees with the review iff an allow given less than a TTL and a timeout ago still stands. */
  lemma HitsAgreeIff(reviews: Reviews, ttl: int, timeout: int, token: string, verb: string, path: string, now: int)
    requires ttl > 0 && timeout >= 0 && SpaceFree(token, verb)
    ensures HitsAgreeAt(reviews, ttl, timeout, token, verb, path, now) <==>
      (AllowedLately(reviews, ttl, timeout, token, verb, path, now) ==> reviews(token, verb, path, now) == Allowed)
  {
    var key := CacheKey(token, verb, path);
    if s :| now - ttl - timeout < s <= now && reviews(token, verb, path, s) == Allowed {
      var g := Grant(token, verb, path, s, StoredBy(timeout, s, now));
      assert Backs(reviews, ttl, timeout, key, g.remembered + ttl, g) && g.remembered <= now < g.remembered + ttl;
    }
    forall expiry, g: Grant | Backs(reviews, ttl, timeout, key, expiry, g) && g.remembered <= now < expiry
      ensures AllowedLately(reviews, ttl, timeout, token, verb, path, now)
    {
      CacheKeyIsInjective(token, verb, path, g.token, g.verb, g.path);
      assert now - ttl - timeout < g.reviewed <= now;
    }
  }

  /** Allowed until time 0. */
  function UntilZero(token: string, verb: string, path: string, now: int): Code {
    if now <= 0 then Allowed else Forbidden
  }

  /**
   A refusal throughout the TTL is not enough: with a minute and ten seconds, a request refused for
   the last minute can be answered from an entry that took the review five seconds to store.
   */
  lemma TtlAloneIsNotEnough()
    ensures forall s :: 65 - CACHE_TTL < s <= 65 ==> UntilZero("t", "get", "/metrics", s) == Forbidden
    ensures !HitsAgreeAt(UntilZero, CACHE_TTL, REVIEW_TIMEOUT, "t", "get", "/metrics", 65)
  {
    HitsAgreeIff(UntilZero, CACHE_TTL, REVIEW_TIMEOUT, "t", "get", "/metrics", 65);
    assert UntilZero("t", "get", "/metrics", 0) == Allowed;
  }

  /** The entries that have not expired. */
  function Live(allowed: map<string, int>, now: int): map<string, int> {
    map k | k in allowed && now < allowed[k] :: allowed[k]
  }

  /** What is left when there must be room for one more: everything, the live entries, or nothing. */
  function RoomFor(allowed: map<string, int>, now: int): map<string, int> {
    if |allowed| < MAX_CACHE_ENTRIES then allowed
    else if |Live(allowed, now)| < MAX_CACHE_ENTRIES then Live(allowed, now)
    else map[]
  }

  /**
   Room is made without changing an entry: nothing goes while there is room, expired entries go first,
   and a live one goes only if 256 are live.
   */
  lemma RoomForMeans(allowed: map<string, int>, now: int, k: string)
    ensures var room := RoomFor(allowed, now);
            && |room| < 256
            && (k in room ==> k in allowed && room[k] == allowed[k])
            && (k in allowed && |allowed| < 256 ==> k in room)
            && (k in room && |allowed| >= 256 ==> now < allowed[k])
            && (k in allowed && now < allowed[k] && |set x | x in allowed && now < allowed[x]| < 256 ==> k in room)
  {
    assert Live(allowed, now).Keys == set x | x in allowed && now < allowed[x];
  }

  class Reviewer {
    const reviews: Reviews
    const ttl: int
    const timeout: int
    var allowed: map<string, int>
    ghost var grants: map<string, Grant>
    ghost var clock: int

    constructor (reviews: Reviews, ttl: int, timeout: int, now: int)
      requires ttl > 0 && timeout >= 0
      ensures Valid() && allowed == map[] && clock == now
      ensures this.reviews == reviews && this.ttl == ttl && this.timeout == timeout
    {
      this.reviews, this.ttl, this.timeout := reviews, ttl, timeout;
      allowed, grants, clock := map[], map[], now;
    }

    /** At most 256 entries, each backed by an allow for that very request, expiring one TTL after it was stored. */
    ghost predicate Valid()
      reads this
    {
      && ttl > 0 && timeout >= 0
      && |allowed| <= MAX_CACHE_ENTRIES
      && AllBacked(reviews, ttl, timeout, allowed, grants, clock)
    }

    method Cached(key: string, now: int) returns (hit: bool)
      requires Valid() && clock <= now
      modifies this`allowed, this`clock
      ensures Valid() && clock == now
      ensures hit <==> key in old(allowed) && now < old(allowed)[key]
      ensures allowed == if hit then old(allowed) else old(allowed) - {key}
    {
      hide AllBacked;
      StillBacked(reviews, ttl, timeout, allowed, grants, clock, allowed, now);
      clock := now;
      if key in allowed && now < allowed[key] { return true; }
      SmallerMap(allowed, {key});
      StillBacked(reviews, ttl, timeout, allowed, grants, clock, allowed - {key}, now);
      allowed := allowed - {key};
      hit := false;
    }

    method Remember(key: string, now: int, ghost g: Grant)
      requires Valid() && clock <= now
      requires Backs(reviews, ttl, timeout, key, now + ttl, g) && g.remembered == now
      modifies this
      ensures Valid() && clock == now
      ensures allowed == RoomFor(old(allowed), now)[key := now + ttl]
    {
      hide Backs, CacheKey, AllBacked, Live, RoomFor;
      StillBacked(reviews, ttl, timeout, allowed, grants, clock, allowed, now);
      clock := now;
      MakeRoom(now);
      GrownMap(allowed, key, now + ttl);
      OneMoreBacked(reviews, ttl, timeout, allowed, grants, clock, key, now + ttl, g);
      allowed := allowed[key := now + ttl];
      grants := grants[key := g];
    }

    /** A full cache loses its expired entries or, if that does not help, all of them. */
    method MakeRoom(now: int)
      requires Valid()
      modifies this`allowed
      ensures Valid() && |allowed| < MAX_CACHE_ENTRIES
      ensures allowed == RoomFor(old(allowed), now)
    {
      hide AllBacked;
      if |allowed| < MAX_CACHE_ENTRIES { return; }
      Purge(now);
      if |allowed| >= MAX_CACHE_ENTRIES {
        StillBacked(reviews, ttl, timeout, allowed, grants, clock, map[], clock);
        allowed := map[];
      }
    }

    /** Drop every expired entry. */
    method Purge(now: int)
      requires Valid()
      modifies this`allowed
      ensures Valid()
      ensures allowed == Live(old(allowed), now)
    {
      hide Backs, CacheKey, AllBacked;
      var todo := allowed.Keys;
      while todo != {}
        invariant Valid() && todo <= old(allowed).Keys
        invariant forall k :: k in allowed <==> k in old(allowed) && (k in todo || now < old(allowed)[k])
        invariant forall k :: k in allowed ==> allowed[k] == old(allowed)[k]
        decreases |todo|
      {
        var k :| k in todo;
        todo := todo - {k};
        if allowed[k] <= now {
          SmallerMap(allowed, {k});
          StillBacked(reviews, ttl, timeout, allowed, grants, clock, allowed - {k}, clock);
          allowed := allowed - {k};
        }
      }
    }

    /**
     One request: the cache is asked at t1, on a miss the review at t2, and an allow is stored at t3.
     The answer is the review's, or -- from the cache -- one it gave for this very request less than a
     TTL and a timeout ago; nothing but an allow is ever stored.
     */
    method Authorize(token: string, verb: string, path: string, t1: int, t2: int, t3: int) returns (code: Code)
      requires Valid() && clock <= t1 <= t2 <= t3 <= t2 + timeout
      requires ' ' !in token && ' ' !in verb
      modifies this
      ensures Valid() && t1 <= clock <= t3
      ensures var key := CacheKey(token, verb, path);
              if key in old(allowed) && t1 < old(allowed)[key] then
                code == Allowed && allowed == old(allowed) &&
                AllowedLately(reviews, ttl, timeout, token, verb, path, t1)
              else
                code == reviews(token, verb, path, t2) &&
                allowed == if code == Allowed then RoomFor(old(allowed) - {key}, t3)[key := t3 + ttl]
                           else old(allowed) - {key}
      ensures Steady(reviews, ttl, timeout, token, verb, path, t1) ==>
        code == reviews(token, verb, path, t1) || code == reviews(token, verb, path, t2)
    {
      hide CacheKey, RoomFor;
      var key := CacheKey(token, verb, path);
      var hit := Cached(key, t1);
      if hit {
        HitAgreesWithReview(key, token, verb, path, t1);
        return Allowed;
      }
      code := reviews(token, verb, path, t2);
      if code == Allowed {
        Remember(key, t3, Grant(token, verb, path, t2, t3));
      }
    }

    /** A live entry means the review allowed the request lately and, if it has been steady, that it does now. */
    lemma HitAgreesWithReview(key: string, token: string, verb: string, path: string, now: int)
      requires Valid() && clock <= now && ' ' !in token && ' ' !in verb && key == CacheKey(token, verb, path)
      requires key in allowed && now < allowed[key]
      ensures AllowedLately(reviews, ttl, timeout, token, verb, path, now)
      ensures Steady(reviews, ttl, timeout, token, verb, path, now) ==> reviews(token, verb, path, now) == Allowed
    {
      var g := grants[key];
      CacheKeyIsInjective(token, verb, path, g.token, g.verb, g.path);
      assert now - ttl - timeout < g.reviewed <= now && reviews(token, verb, path, g.reviewed) == Allowed;
    }
  }

  /**
   The bound is tight: whatever the review says at t, if it allowed the request at any s less than a
   TTL and a timeout before, a reviewer first asked at s answers that it is allowed at t.
   */
  method StaleHit(reviews: Reviews, ttl: int, timeout: int, token: string, verb: string, path: string, s: int, t: int)
    returns (code: Code)
    requires ttl > 0 && timeout >= 0 && SpaceFree(token, verb)
    requires s <= t < s + timeout + ttl && reviews(token, verb, path, s) == Allowed
    ensures code == Allowed
  {
    hide CacheKey;
    var reviewer := new Reviewer(reviews, ttl, timeout, s);
    var stored := StoredBy(timeout, s, t);
    code := reviewer.Authorize(token, verb, path, s, s, stored);
    code := reviewer.Authorize(token, verb, path, t, t, t);
  }

  /** So it happens: refused for the whole last minute, and answered with an allow. */
  method StaleHitAfterAMinute() returns (code: Code)
    ensures code == Allowed
    ensures forall s :: 65 - CACHE_TTL < s <= 65 ==> UntilZero("t", "get", "/metrics", s) == Forbidden
  {
    code := StaleHit(UntilZero, CACHE_TTL, REVIEW_TIMEOUT, "t", "get", "/metrics", 0, 65);
  }

  // ---- concurrent requests ----

  /** The two critical sections of a request; between them other requests run theirs. */
  datatype Event =
    | Ask(token: string, verb: string, path: string, now: int)
    | Store(grant: Grant)
  {
    function At(): int {
      if Ask? then now else grant.remembered
    }
  }

  /** A request asks for itself, and stores only what a review it made in time allowed. */
  ghost predicate Honest(reviews: Reviews, timeout: int, e: Event) {
    match e
    case Ask(token, verb, path, _) => SpaceFree(token, verb)
    case Store(g) =>
      SpaceFree(g.token, g.verb) && reviews(g.token, g.verb, g.path, g.reviewed) == Allowed &&
      g.reviewed <= g.remembered <= g.reviewed + timeout
  }

  ghost predicate Answerable(r: Reviewer, e: Event)
    requires e.Ask?
  {
    AllowedLately(r.reviews, r.ttl, r.timeout, e.token, e.verb, e.path, e.now)
  }

  /**
   Any interleaving of the critical sections of any number of requests: the cache stays within its
   bound and backed, and every hit is one the review allowed lately.
   */
  method Serve(r: Reviewer, events: seq<Event>) returns (hits: seq<bool>)
    requires r.Valid() && forall i :: 0 <= i < |events| ==> Honest(r.reviews, r.timeout, events[i])
    requires forall i :: 0 <= i < |events| ==> r.clock <= events[i].At()
    requires forall i, j :: 0 <= i < j < |events| ==> events[i].At() <= events[j].At()
    modifies r
    ensures r.Valid() && |r.allowed| <= MAX_CACHE_ENTRIES && |hits| == |events|
    ensures forall i :: 0 <= i < |events| && events[i].Ask? && hits[i] ==>
      Answerable(r, events[i])
  {
    hide CacheKey, RoomFor, AllBacked;
    hits := [];
    for n := 0 to |events|
      invariant r.Valid() && |hits| == n && (forall i :: n <= i < |events| ==> r.clock <= events[i].At())
      invariant forall i :: 0 <= i < n && events[i].Ask? && hits[i] ==>
        Answerable(r, events[i])
    {
      assert Honest(r.reviews, r.timeout, events[n]);
      match events[n] {
        case Ask(token, verb, path, now) =>
          var key := CacheKey(token, verb, path);
          if key in r.allowed && now < r.allowed[key] { r.HitAgreesWithReview(key, token, verb, path, now); }
          var hit := r.Cached(key, now);
          hits := hits + [hit];
        case Store(g) =>
          r.Remember(CacheKey(g.token, g.verb, g.path), g.remembered, g);
          hits := hits + [false];
      }
    }
  }

  lemma SmallerMap<K, V>(m: map<K, V>, ks: set<K>)
    ensures |m - ks| <= |m|
  {
    assert (m - ks).Keys == m.Keys - ks;
    assert |(m - ks).Keys| == |m - ks| && |m.Keys| == |m|;
  }

  lemma GrownMap<K, V>(m: map<K, V>, k: K, v: V)
    ensures |m[k := v]| <= |m| + 1
  {
    assert m[k := v].Keys == m.Keys + {k};
    assert |m[k := v].Keys| == |m[k := v]| && |m.Keys| == |m|;
  }
}
