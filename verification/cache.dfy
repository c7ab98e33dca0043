/** The cache store: keys to copies, cleared by prefix. */
module CacheStores {
  import opened Wrappers

  /** One cached copy and the time it was read. */
  datatype Entry<A> = Entry(answer: A, readAt: int)

  /** What remains once every key that starts with the prefix is gone. */
  ghost function Cleared<A>(entries: map<string, Entry<A>>, prefix: string): map<string, Entry<A>> {
    map key | key in entries && !(prefix <= key) :: entries[key]
  }

  class InMemoryCacheStore<A> {
    var entries: map<string, Entry<A>>

    constructor ()
      ensures entries == map[]
    {
      entries := map[];
    }

    method Get(key: string) returns (entry: Option<Entry<A>>)
      ensures entry.Some? <==> key in entries
      ensures entry.Some? ==> entry.value == entries[key]
    {
      entry := if key in entries then Some(entries[key]) else None;
    }

    method Set(key: string, entry: Entry<A>)
      modifies this
      ensures entries == old(entries)[key := entry]
    {
      entries := entries[key := entry];
    }

    method Delete(key: string)
      modifies this
      ensures entries == old(entries) - {key}
    {
      entries := entries - {key};
    }

    /** Without a prefix, everything goes; with one, the keys that start with it. */
    method Clear(prefix: Option<string>)
      modifies this
      ensures forall key :: key in entries <==>
                key in old(entries) && prefix.Some? && !(prefix.value <= key)
      ensures forall key :: key in entries ==> entries[key] == old(entries)[key]
      ensures entries == if prefix.None? then map[] else Cleared(old(entries), prefix.value)
    {
      if prefix.None? {
        entries := map[];
        return;
      }
      ghost var before := entries;
      var pending := set key | key in entries && prefix.value <= key;
      while pending != {}
        invariant forall key :: key in pending ==> key in before && prefix.value <= key
        invariant forall key :: key in entries <==> key in before && (prefix.value <= key ==> key in pending)
        invariant forall key :: key in entries ==> entries[key] == before[key]
        decreases |pending|
      {
        var key :| key in pending;
        pending := pending - {key};
        entries := entries - {key};
      }
    }
  }
}

/** A read-through cache in front of a service, evicted by every write that returns. */
module CachedServices {
  import opened Wrappers
  import opened CacheStores

  datatype Strategy = ETag | LastModified | Optimistic(expireIn: int)

  /** Validators cannot be decided without the source; the window is a time check alone. */
  predicate ShouldRead(strategy: Strategy, readAt: int, now: int) {
    match strategy
    case ETag => true
    case LastModified => true
    case Optimistic(expireIn) => now - readAt >= expireIn
  }

  /** A read: its operation, and what tells its arguments apart. */
  datatype Request = Read(id: string) | BatchRead(ids: string) | Search(query: string) | Count(filter: string)

  function Operation(request: Request): string {
    match request
    case Read(_) => "read"
    case BatchRead(_) => "batch_read"
    case Search(_) => "search"
    case Count(_) => "count"
  }

  function Discriminator(request: Request): string {
    match request
    case Read(id) => id
    case BatchRead(ids) => ids
    case Search(query) => query
    case Count(filter) => filter
  }

  function Key(path: string, request: Request): string {
    path + ":" + Operation(request) + ":" + Discriminator(request)
  }

  // ----- Keys -----

  predicate ColonFree(s: string) {
    ':' !in s
  }

  /** Neither path continues the other at a colon. */
  predicate Apart(p: string, q: string) {
    !(p + ":" <= q + ":") && !(q + ":" <= p + ":")
  }

  lemma ColonSplits(a: string, x: string, b: string, y: string)
    requires ColonFree(a) && ColonFree(b) && a + ":" + x == b + ":" + y
    ensures a == b && x == y
  {
    var whole := a + ":" + x;
    assert whole[|a|] == ':' && whole[|b|] == ':';
    if |a| < |b| {
      assert false;
    }
    if |b| < |a| {
      assert false;
    }
    assert a == whole[..|a|] && b == whole[..|b|];
    assert x == whole[|a| + 1..] && y == whole[|b| + 1..];
  }

  function Suffix(request: Request): string {
    Operation(request) + ":" + Discriminator(request)
  }

  lemma KeyIsSuffixed(path: string, request: Request)
    ensures Key(path, request) == path + ":" + Suffix(request)
    ensures Key(path, request)[|path| + 1..] == Suffix(request)
  {
  }

  lemma SuffixDeterminesRequest(r: Request, s: Request)
    requires Suffix(r) == Suffix(s)
    ensures r == s
  {
    ColonSplits(Operation(r), Discriminator(r), Operation(s), Discriminator(s));
  }

  /** Under one path the key determines the request. */
  lemma KeyDeterminesRequest(path: string, r: Request, s: Request)
    requires Key(path, r) == Key(path, s)
    ensures r == s
  {
    KeyIsSuffixed(path, r);
    KeyIsSuffixed(path, s);
    SuffixDeterminesRequest(r, s);
  }

  lemma KeyStartsWithPath(path: string, request: Request)
    ensures path + ":" <= Key(path, request)
  {
    KeyIsSuffixed(path, request);
  }

  lemma PrefixesCompare(a: string, b: string, whole: string)
    requires a <= whole && b <= whole
    ensures a <= b || b <= a
  {
    if |a| <= |b| {
      assert a == whole[..|a|] && b == whole[..|b|];
      assert a == b[..|a|];
    } else {
      assert b == a[..|b|];
    }
  }

  lemma PrefixTransitive(a: string, b: string, c: string)
    requires a <= b && b <= c
    ensures a <= c
  {
    assert a == b[..|a|] == c[..|a|];
  }

  /** Sharing a store, two resources never meet: no common key, and no eviction of each other's. */
  ghost predicate Separate(p: string, q: string) {
    forall r: Request, s: Request :: NeverMeet(p, r, q, s)
  }

  predicate NeverMeet(p: string, r: Request, q: string, s: Request) {
    Key(p, r) != Key(q, s) && !(p + ":" <= Key(q, s)) && !(q + ":" <= Key(p, r))
  }

  lemma ApartKeepsSeparate(p: string, r: Request, q: string, s: Request)
    requires Apart(p, q)
    ensures NeverMeet(p, r, q, s)
  {
    KeyStartsWithPath(p, r);
    KeyStartsWithPath(q, s);
    if p + ":" <= Key(q, s) {
      PrefixesCompare(p + ":", q + ":", Key(q, s));
    }
    if q + ":" <= Key(p, r) {
      PrefixesCompare(p + ":", q + ":", Key(p, r));
    }
  }

  /** Resources are separate exactly when neither path continues the other at a colon. */
  lemma SeparateExactly(p: string, q: string)
    ensures Separate(p, q) <==> Apart(p, q)
  {
    if Apart(p, q) {
      forall r: Request, s: Request
        ensures NeverMeet(p, r, q, s)
      {
        ApartKeepsSeparate(p, r, q, s);
      }
    } else {
      var r := Read("");
      KeyStartsWithPath(p, r);
      KeyStartsWithPath(q, r);
      if p + ":" <= q + ":" {
        PrefixTransitive(p + ":", q + ":", Key(q, r));
      } else {
        PrefixTransitive(q + ":", p + ":", Key(p, r));
      }
      assert !NeverMeet(p, r, q, r);
    }
  }

  /** What a write of one resource clears: its own entries, all of them, and none of a resource apart from it. */
  lemma ClearsOwnEntriesOnly<A>(entries: map<string, Entry<A>>, path: string, other: string, request: Request)
    ensures Key(path, request) !in Cleared(entries, path + ":")
    ensures Apart(path, other) ==>
              && (Key(other, request) in Cleared(entries, path + ":") <==> Key(other, request) in entries)
              && (Key(other, request) in entries ==>
                    Cleared(entries, path + ":")[Key(other, request)] == entries[Key(other, request)])
  {
    KeyStartsWithPath(path, request);
    if Apart(path, other) {
      ApartKeepsSeparate(path, request, other, request);
    }
  }

  /** Distinct paths without colons are apart. */
  lemma ColonFreePathsAreApart(p: string, q: string)
    requires ColonFree(p) && ColonFree(q) && p != q
    ensures Apart(p, q)
  {
    if p + ":" <= q + ":" {
      var rest := (q + ":")[|p| + 1..];
      assert p + ":" + rest == q + ":" + "";
      ColonSplits(p, rest, q, "");
    }
    if q + ":" <= p + ":" {
      var rest := (p + ":")[|q| + 1..];
      assert q + ":" + rest == p + ":" + "";
      ColonSplits(q, rest, p, "");
    }
  }

  /** With a colon in a path, one resource can answer from another's copy. */
  lemma ColonPathsCollide()
    ensures Key("a", Read("search:x")) == Key("a:read", Search("x"))
  {
  }

  // ----- One read, one write -----

  /** What the inner service answers: None when it raises. A viewer marks a caller-scoped response. */
  type Respond<!S, !A> = (S, Request, Option<int>) -> Option<A>

  predicate Cacheable(strategy: Option<Strategy>, viewer: Option<int>) {
    strategy.Some? && viewer.None?
  }

  predicate Fresh<A>(
    entries: map<string, Entry<A>>, strategy: Option<Strategy>, key: string, viewer: Option<int>, now: int)
  {
    Cacheable(strategy, viewer) && key in entries && !ShouldRead(strategy.value, entries[key].readAt, now)
  }

  function Served<A>(
    entries: map<string, Entry<A>>, strategy: Option<Strategy>, key: string, viewer: Option<int>, now: int,
    answer: Option<A>): Option<A>
  {
    if Fresh(entries, strategy, key, viewer, now) then Some(entries[key].answer) else answer
  }

  function Filled<A>(
    entries: map<string, Entry<A>>, strategy: Option<Strategy>, key: string, viewer: Option<int>, now: int,
    answer: Option<A>): map<string, Entry<A>>
  {
    if Cacheable(strategy, viewer) && !Fresh(entries, strategy, key, viewer, now) && answer.Some?
    then entries[key := Entry(answer.value, now)]
    else entries
  }

  /** A read that asked and was answered serves its answer for the window, whatever the inner service would say. */
  lemma CopyIsServed<A>(
    entries: map<string, Entry<A>>, expireIn: int, key: string, now: int, given: Option<A>,
    later: int, viewer: Option<int>, other: Option<A>)
    requires !Fresh(entries, Some(Optimistic(expireIn)), key, None, now) && given.Some?
    requires now <= later
    ensures var filled := Filled(entries, Some(Optimistic(expireIn)), key, None, now, given);
            Served(filled, Some(Optimistic(expireIn)), key, viewer, later, other)
            == if viewer.None? && later < now + expireIn then given else other
    ensures var filled := Filled(entries, Some(Optimistic(expireIn)), key, None, now, given);
            forall k :: k != key ==> (k in filled <==> k in entries) && (k in filled ==> filled[k] == entries[k])
  {
  }

  class InnerService<S, A> {
    var state: S
    const respond: Respond<S, A>

    constructor (state: S, respond: Respond<S, A>)
      ensures this.state == state && this.respond == respond
    {
      this.state, this.respond := state, respond;
    }
  }

  class CachedService<S, A> {
    const inner: InnerService<S, A>
    const store: InMemoryCacheStore<A>
    const strategy: Option<Strategy>
    const path: string

    constructor (inner: InnerService<S, A>, store: InMemoryCacheStore<A>, strategy: Option<Strategy>, path: string)
      ensures this.inner == inner && this.store == store && this.strategy == strategy && this.path == path
    {
      this.inner, this.store, this.strategy, this.path := inner, store, strategy, path;
    }

    /** Serves from the store when fresh; otherwise asks the inner service and refills. */
    method ReadThrough(request: Request, viewer: Option<int>, now: int) returns (answer: Option<A>)
      modifies store
      ensures var given, key := inner.respond(inner.state, request, viewer), Key(path, request);
              && answer == Served(old(store.entries), strategy, key, viewer, now, given)
              && store.entries == Filled(old(store.entries), strategy, key, viewer, now, given)
    {
      var cacheable := strategy.Some? && viewer.None?;
      if cacheable {
        var entry := store.Get(Key(path, request));
        if entry.Some? && !ShouldRead(strategy.value, entry.value.readAt, now) {
          return Some(entry.value.answer);
        }
      }
      answer := inner.respond(inner.state, request, viewer);
      if cacheable && answer.Some? {
        store.Set(Key(path, request), Entry(answer.value, now));
      }
    }

    /** Forwards a write; the eviction follows only if the write returns. */
    method WriteThrough(state: S, raised: bool)
      modifies inner`state, store
      ensures inner.state == state
      ensures store.entries == if raised then old(store.entries) else Cleared(old(store.entries), path + ":")
      ensures !raised ==> forall request :: Key(path, request) !in store.entries
      ensures forall other, request | Apart(path, other) ::
                && (Key(other, request) in store.entries <==> Key(other, request) in old(store.entries))
                && (Key(other, request) in store.entries ==>
                      store.entries[Key(other, request)] == old(store.entries)[Key(other, request)])
    {
      forall other, request
        ensures Key(path, request) !in Cleared(store.entries, path + ":")
        ensures Apart(path, other) ==>
                  && (Key(other, request) in Cleared(store.entries, path + ":")
                      <==> Key(other, request) in store.entries)
                  && (Key(other, request) in store.entries ==>
                        Cleared(store.entries, path + ":")[Key(other, request)] == store.entries[Key(other, request)])
      {
        ClearsOwnEntriesOnly(store.entries, path, other, request);
      }
      inner.state := state;
      if !raised {
        store.Clear(Some(path + ":"));
      }
    }
  }

  // ----- Runs of several resources over one store -----

  datatype World<S, A> = World(now: int, states: map<string, S>, entries: map<string, Entry<A>>)

  /** Writes and changes name the state they leave; a write that raises may still have changed it. */
  datatype Event<S> =
    | Tick(seconds: nat)
    | Outside(path: string, state: S)
    | Write(path: string, state: S, raised: bool)
    | Ask(path: string, request: Request, viewer: Option<int>)

  type Settings = map<string, Option<Strategy>>

  predicate Legal<S>(settings: Settings, event: Event<S>) {
    event.Tick? || event.path in settings
  }

  ghost predicate Start<S, A>(settings: Settings, w: World<S, A>) {
    w.states.Keys == settings.Keys && w.entries == map[]
  }

  ghost predicate Run<S>(settings: Settings, events: seq<Event<S>>) {
    forall event :: event in events ==> Legal(settings, event)
  }

  ghost function Step<S, A>(
    settings: Settings, respond: Respond<S, A>, w: World<S, A>, event: Event<S>): (next: World<S, A>)
    requires w.states.Keys == settings.Keys && Legal(settings, event)
    ensures next.states.Keys == settings.Keys
  {
    match event
    case Tick(seconds) => w.(now := w.now + seconds)
    case Outside(path, state) => w.(states := w.states[path := state])
    case Write(path, state, raised) =>
      w.(states := w.states[path := state],
         entries := if raised then w.entries else Cleared(w.entries, path + ":"))
    case Ask(path, request, viewer) =>
      w.(entries := Filled(w.entries, settings[path], Key(path, request), viewer, w.now,
                           respond(w.states[path], request, viewer)))
  }

  ghost function After<S, A>(
    settings: Settings, respond: Respond<S, A>, w: World<S, A>, events: seq<Event<S>>): (next: World<S, A>)
    requires w.states.Keys == settings.Keys && Run(settings, events)
    ensures next.states.Keys == settings.Keys
  {
    if events == [] then w
    else Step(settings, respond, After(settings, respond, w, events[..|events| - 1]), events[|events| - 1])
  }

  /** What a caller is told after the run. */
  ghost function Reply<S, A>(
    settings: Settings, respond: Respond<S, A>, w: World<S, A>, path: string, request: Request, viewer: Option<int>)
    : Option<A>
    requires w.states.Keys == settings.Keys && path in settings
  {
    Served(w.entries, settings[path], Key(path, request), viewer, w.now, respond(w.states[path], request, viewer))
  }

  predicate CompletedWrite<S>(event: Event<S>, path: string) {
    event.Write? && event.path == path && !event.raised
  }

  /** The copy is what the inner service told a public caller at event k, and no write came back since. */
  ghost predicate GivenAt<S, A>(
    settings: Settings, respond: Respond<S, A>, start: World<S, A>, events: seq<Event<S>>, path: string,
    request: Request, entry: Entry<A>, k: nat)
    requires start.states.Keys == settings.Keys && Run(settings, events) && path in settings
    requires k < |events|
  {
    var asked := After(settings, respond, start, events[..k]);
    && events[k] == Ask(path, request, None)
    && asked.now == entry.readAt
    && respond(asked.states[path], request, None) == Some(entry.answer)
    && forall j :: k < j < |events| ==> !CompletedWrite(events[j], path)
  }

  ghost predicate AllApart(settings: Settings) {
    forall p, q :: p in settings && q in settings && p != q ==> Apart(p, q)
  }

  /** An event either gives a resource's copy, or leaves it as it was and is no completed write. */
  lemma CopyAfterStep<S, A>(
    settings: Settings, respond: Respond<S, A>, w: World<S, A>, event: Event<S>, path: string, request: Request)
    requires w.states.Keys == settings.Keys && Legal(settings, event) && path in settings && AllApart(settings)
    requires Key(path, request) in Step(settings, respond, w, event).entries
    ensures var key := Key(path, request);
            var entry := Step(settings, respond, w, event).entries[key];
            || (event == Ask(path, request, None) && entry.readAt == w.now
                && respond(w.states[path], request, None) == Some(entry.answer))
            || (key in w.entries && w.entries[key] == entry && !CompletedWrite(event, path))
  {
    KeyStartsWithPath(path, request);
    if event.Ask? && event.path != path {
      ApartKeepsSeparate(path, request, event.path, event.request);
    }
    if event.Ask? && event.path == path && Key(path, event.request) == Key(path, request) {
      KeyDeterminesRequest(path, request, event.request);
    }
  }

  lemma {:induction false} CopyWasGiven<S, A>(
    settings: Settings, respond: Respond<S, A>, start: World<S, A>, events: seq<Event<S>>, path: string,
    request: Request)
    returns (k: nat)
    requires Start(settings, start) && Run(settings, events) && path in settings && AllApart(settings)
    requires Key(path, request) in After(settings, respond, start, events).entries
    ensures k < |events|
    ensures GivenAt(settings, respond, start, events, path, request,
                    After(settings, respond, start, events).entries[Key(path, request)], k)
  {
    assert events != [];
    k := |events| - 1;
    var earlier, event, key := events[..k], events[k], Key(path, request);
    var w := After(settings, respond, start, earlier);
    var entry := After(settings, respond, start, events).entries[key];
    assert Legal(settings, event);
    CopyAfterStep(settings, respond, w, event, path, request);
    if !(event == Ask(path, request, None) && entry.readAt == w.now
         && respond(w.states[path], request, None) == Some(entry.answer)) {
      k := CopyWasGiven(settings, respond, start, earlier, path, request);
      GivenEarlier(settings, respond, start, events, path, request, entry, k);
    }
  }

  lemma GivenEarlier<S, A>(
    settings: Settings, respond: Respond<S, A>, start: World<S, A>, events: seq<Event<S>>, path: string,
    request: Request, entry: Entry<A>, k: nat)
    requires start.states.Keys == settings.Keys && Run(settings, events) && path in settings
    requires k < |events| - 1 && !CompletedWrite(events[|events| - 1], path)
    requires GivenAt(settings, respond, start, events[..|events| - 1], path, request, entry, k)
    ensures GivenAt(settings, respond, start, events, path, request, entry, k)
  {
    var earlier := events[..|events| - 1];
    assert events[..k] == earlier[..k];
    forall j | k < j < |events|
      ensures !CompletedWrite(events[j], path)
    {
      assert j < |earlier| ==> events[j] == earlier[j];
    }
  }

  /**
   Whatever happens behind or beside the cache, an answer is either what the inner service
   says now, or what it told some public caller less than the window ago with no
   write through the wrapper having returned since. A caller-scoped answer is never stored.
   */
  lemma ReplyIsRecent<S, A>(
    settings: Settings, respond: Respond<S, A>, start: World<S, A>, events: seq<Event<S>>, path: string,
    request: Request, viewer: Option<int>)
    requires Start(settings, start) && Run(settings, events) && path in settings
    requires AllApart(settings)
    ensures var w := After(settings, respond, start, events);
            var reply := Reply(settings, respond, w, path, request, viewer);
            || reply == respond(w.states[path], request, viewer)
            || (&& viewer.None? && reply.Some? && settings[path].Some? && settings[path].value.Optimistic?
                && exists k, readAt :: 0 <= k < |events|
                     && GivenAt(settings, respond, start, events, path, request, Entry(reply.value, readAt), k)
                     && w.now - readAt < settings[path].value.expireIn)
  {
    var w := After(settings, respond, start, events);
    var key := Key(path, request);
    if Fresh(w.entries, settings[path], key, viewer, w.now) {
      var k := CopyWasGiven(settings, respond, start, events, path, request);
      var entry := w.entries[key];
      assert Entry(entry.answer, entry.readAt) == entry;
    }
  }

  // ----- When the copy is not just recent but current -----

  /** A change of the resource that no eviction follows: from outside, or by a write that raises. */
  predicate Unevicted<S>(event: Event<S>, path: string) {
    (event.Outside? && event.path == path) || (event.Write? && event.path == path && event.raised)
  }

  /** No such change alters the public answer to this request. */
  ghost predicate AnswerKept<S, A>(
    settings: Settings, respond: Respond<S, A>, start: World<S, A>, events: seq<Event<S>>, path: string,
    request: Request)
    requires start.states.Keys == settings.Keys && Run(settings, events) && path in settings
  {
    forall j :: 0 <= j < |events| && Unevicted(events[j], path) ==>
      respond(events[j].state, request, None)
      == respond(After(settings, respond, start, events[..j]).states[path], request, None)
  }

  lemma {:induction false} AnswerSince<S, A>(
    settings: Settings, respond: Respond<S, A>, start: World<S, A>, events: seq<Event<S>>, path: string,
    request: Request, k: nat)
    requires start.states.Keys == settings.Keys && Run(settings, events) && path in settings
    requires AnswerKept(settings, respond, start, events, path, request)
    requires k <= |events| && forall j :: k <= j < |events| ==> !CompletedWrite(events[j], path)
    ensures respond(After(settings, respond, start, events).states[path], request, None)
         == respond(After(settings, respond, start, events[..k]).states[path], request, None)
  {
    if k == |events| {
      assert events[..k] == events;
    } else {
      var earlier := events[..|events| - 1];
      forall j | 0 <= j < |earlier|
        ensures earlier[..j] == events[..j]
      {
      }
      AnswerSince(settings, respond, start, earlier, path, request, k);
      assert earlier[..k] == events[..k];
      assert events[..|events| - 1] == earlier;
    }
  }

  /** Then the cache is invisible for that request: every caller is told what the inner service says now. */
  lemma CacheAgrees<S, A>(
    settings: Settings, respond: Respond<S, A>, start: World<S, A>, events: seq<Event<S>>, path: string,
    request: Request, viewer: Option<int>)
    requires Start(settings, start) && Run(settings, events) && path in settings
    requires AllApart(settings)
    requires AnswerKept(settings, respond, start, events, path, request)
    ensures var w := After(settings, respond, start, events);
            Reply(settings, respond, w, path, request, viewer) == respond(w.states[path], request, viewer)
  {
    var w := After(settings, respond, start, events);
    if Fresh(w.entries, settings[path], Key(path, request), viewer, w.now) {
      var k := CopyWasGiven(settings, respond, start, events, path, request);
      AnswerSince(settings, respond, start, events, path, request, k);
    }
  }

  /** A read, a change that evicts nothing, and some time. */
  function AskChangeWait<S>(path: string, request: Request, change: Event<S>, seconds: nat): seq<Event<S>> {
    [Ask(path, request, None), change, Tick(seconds)]
  }

  /**
   After any run that leaves no fresh copy, then a read and a change that evicts nothing, within
   the window: a public caller is told what the inner service says now exactly when the read was
   not answered or the change left the answer as it was.
   */
  lemma UnevictedChangeExactly<S, A>(
    settings: Settings, respond: Respond<S, A>, start: World<S, A>, history: seq<Event<S>>, path: string,
    request: Request, change: Event<S>, seconds: nat)
    requires start.states.Keys == settings.Keys && Run(settings, history)
    requires path in settings && Unevicted(change, path)
    requires settings[path].Some? && settings[path].value.Optimistic? && seconds < settings[path].value.expireIn
    requires var left := After(settings, respond, start, history);
             !Fresh(left.entries, settings[path], Key(path, request), None, left.now)
    ensures var events := history + AskChangeWait(path, request, change, seconds);
            && Run(settings, events)
            && var w := After(settings, respond, start, events);
               var before := respond(After(settings, respond, start, history).states[path], request, None);
               && w.states[path] == change.state
               && (Reply(settings, respond, w, path, request, None) == respond(w.states[path], request, None)
                   <==> before.None? || before == respond(change.state, request, None))
  {
    var asked: Event<S>, waited: Event<S> := Ask(path, request, None), Tick(seconds);
    var turn, left := AskChangeWait(path, request, change, seconds), After(settings, respond, start, history);
    assert turn == [asked, change, waited];
    RunOfThree(settings, respond, left, asked, change, waited);
    AfterConcat(settings, respond, start, history, turn);
    UnevictedTurn(settings, respond, left, path, request, change, seconds);
  }

  /** The three steps themselves. */
  lemma UnevictedTurn<S, A>(
    settings: Settings, respond: Respond<S, A>, left: World<S, A>, path: string, request: Request,
    change: Event<S>, seconds: nat)
    requires left.states.Keys == settings.Keys && path in settings && Unevicted(change, path)
    requires settings[path].Some? && settings[path].value.Optimistic? && seconds < settings[path].value.expireIn
    requires !Fresh(left.entries, settings[path], Key(path, request), None, left.now)
    ensures var asked := Step(settings, respond, left, Ask(path, request, None));
            var w := Step(settings, respond, Step(settings, respond, asked, change), Tick(seconds));
            var before := respond(left.states[path], request, None);
            && w.states[path] == change.state
            && (Reply(settings, respond, w, path, request, None) == respond(change.state, request, None)
                <==> before.None? || before == respond(change.state, request, None))
  {
  }

  lemma {:induction false} AfterConcat<S, A>(
    settings: Settings, respond: Respond<S, A>, start: World<S, A>, first: seq<Event<S>>, second: seq<Event<S>>)
    requires start.states.Keys == settings.Keys && Run(settings, first) && Run(settings, second)
    ensures Run(settings, first + second)
    ensures After(settings, respond, start, first + second)
         == After(settings, respond, After(settings, respond, start, first), second)
    decreases |second|
  {
    if second == [] {
      assert first + second == first;
    } else {
      var n := |second| - 1;
      AfterConcat(settings, respond, start, first, second[..n]);
      assert (first + second)[..|first + second| - 1] == first + second[..n];
    }
  }

  lemma RunOfThree<S, A>(
    settings: Settings, respond: Respond<S, A>, start: World<S, A>, a: Event<S>, b: Event<S>, c: Event<S>)
    requires start.states.Keys == settings.Keys && Legal(settings, a) && Legal(settings, b) && Legal(settings, c)
    ensures Run(settings, [a, b, c])
    ensures After(settings, respond, start, [a, b, c])
         == Step(settings, respond, Step(settings, respond, Step(settings, respond, start, a), b), c)
  {
    assert [a, b, c][..2] == [a, b] && [a, b][..1] == [a] && [a][..0] == [];
    assert After(settings, respond, start, []) == start;
    assert After(settings, respond, start, [a]) == Step(settings, respond, start, a);
    assert After(settings, respond, start, [a, b])
        == Step(settings, respond, After(settings, respond, start, [a]), b);
  }

  /** An instance: a write that raises after changing a row leaves the old copy in place. */
  lemma RaisedWriteLeavesStaleCopy()
    ensures var settings: Settings := map["a" := Some(Optimistic(60))];
            var respond := (state: int, request: Request, viewer: Option<int>) => Some(state);
            var start := World(0, map["a" := 1], map[]);
            var events := [Ask("a", Count(""), None), Write("a", 2, true)];
            && Start(settings, start) && Run(settings, events)
            && var w := After(settings, respond, start, events);
            && w.states["a"] == 2
            && Reply(settings, respond, w, "a", Count(""), None) == Some(1)
  {
  }
}
