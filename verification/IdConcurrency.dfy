/** Concurrent use of RemoteControlIdManager: get-or-generate looks the key up under a shared lock,
    lets go, and looks it up again under the exclusive lock before inserting
    (src/remoteControlIdManager.cpp:9-25 and 50-68). Every interleaving of threads is linearizable. */
module IdConcurrency {
  import opened IdTables
  import opened Options
  import opened Texts

  datatype Key = PlaylistKey(playlist: Text) | TrackKey(item: ItemKey)

  /** What an operation did at the moment it took effect. */
  datatype Effect =
    | Got(key: Key, id: nat)
    | RemovedPlaylist(playlist: Text)
    | RemovedItems(playlist: Text)

  // ---------------------------------------------------------------- the sequential object

  function Lookup(t: Tables, key: Key): Option<nat> {
    match key
    case PlaylistKey(p) => if p in t.playlists.byKey then Some(t.playlists.byKey[p]) else None
    case TrackKey(k) => if k in t.items.byKey then Some(t.items.byKey[k]) else None
  }

  function KeyOf(t: Tables, key: Key, id: nat): Option<Key> {
    match key
    case PlaylistKey(_) => if id in t.playlists.byId then Some(PlaylistKey(t.playlists.byId[id])) else None
    case TrackKey(_) => if id in t.items.byId then Some(TrackKey(t.items.byId[id])) else None
  }

  function Answer(t: Tables, key: Key): Option<nat> {
    match key
    case PlaylistKey(p) => t.playlists.Answer(HashOf(p), p)
    case TrackKey(k) => t.items.Answer(ItemHash(k), k)
  }

  function Request(t: Tables, key: Key): Tables {
    match key
    case PlaylistKey(p) => t.RequestPlaylist(p)
    case TrackKey(k) => t.RequestItem(k)
  }

  /** One operation on its own; None if it could not have had that effect. */
  function Apply(t: Tables, e: Effect): Option<Tables> {
    match e
    case Got(key, id) => if Answer(t, key) == Some(id) then Some(Request(t, key)) else None
    case RemovedPlaylist(p) => Some(t.WithoutItems(p).WithoutPlaylist(p))
    case RemovedItems(p) => Some(t.WithoutItems(p))
  }

  /** A sequential history, oldest effect first; None if it is not one. */
  function Replay(history: seq<Effect>): Option<Tables>
    decreases |history|
  {
    if history == [] then Some(EMPTY)
    else
      var before := Replay(history[..|history| - 1]);
      if before.None? then None else Apply(before.value, history[|history| - 1])
  }

  predicate Removes(e: Effect, key: Key) {
    match key
    case PlaylistKey(p) => e == RemovedPlaylist(p)
    case TrackKey(k) => e == RemovedPlaylist(k.playlist) || e == RemovedItems(k.playlist)
  }

  // ---------------------------------------------------------------- facts about one operation

  lemma RequestKeeps(t: Tables, key: Key)
    requires t.Valid() && Answer(t, key).Some?
    ensures Request(t, key).Valid()
    ensures Lookup(Request(t, key), key) == Answer(t, key)
    ensures forall other :: Lookup(t, other).Some? ==> Lookup(Request(t, key), other) == Lookup(t, other)
  {
    hide HashOf, ItemHash, Registry.Answer, Registry.AfterRequest, Registry.Valid;
    match key
    case PlaylistKey(p) =>
      RequestPlaylistValid(t, p);
      RequestServes(t.playlists, HashOf(p), p);
    case TrackKey(k) =>
      RequestItemValid(t, k);
      RequestServes(t.items, ItemHash(k), k);
  }

  lemma ApplyKeeps(t: Tables, e: Effect, key: Key)
    requires t.Valid() && Apply(t, e).Some?
    ensures Apply(t, e).value.Valid()
    ensures e.Got? ==> Lookup(Apply(t, e).value, e.key) == Some(e.id)
    ensures !Removes(e, key) && Lookup(t, key).Some? ==> Lookup(Apply(t, e).value, key) == Lookup(t, key)
    ensures Removes(e, key) ==> Lookup(Apply(t, e).value, key).None?
  {
    hide HashOf, ItemHash, Request, Answer, Tables.Valid;
    match e {
      case Got(k, id) =>
        RequestKeeps(t, k);
      case RemovedPlaylist(p) =>
        ItemsGone(t, p, key);
        PlaylistGone(t.WithoutItems(p), p, key);
      case RemovedItems(p) =>
        ItemsGone(t, p, key);
    }
  }

  lemma ItemsGone(t: Tables, p: Text, key: Key)
    requires t.Valid()
    ensures var t' := t.WithoutItems(p);
      && t'.Valid()
      && Lookup(t', key) == if key.TrackKey? && key.item.playlist == p then None else Lookup(t, key)
  {
    WithoutItemsValid(t, p);
    hide Tables.Valid, Registry.Without;
  }

  lemma PlaylistGone(t: Tables, p: Text, key: Key)
    requires t.Valid()
    ensures var t' := t.WithoutPlaylist(p);
      && t'.Valid()
      && Lookup(t', key) == if key == PlaylistKey(p) then None else Lookup(t, key)
  {
    WithoutPlaylistValid(t, p);
    hide Tables.Valid;
  }

  lemma LookupsInvert(t: Tables, key: Key)
    requires t.Valid() && Lookup(t, key).Some?
    ensures KeyOf(t, key, Lookup(t, key).value) == Some(key)
    ensures Answer(t, key) == Lookup(t, key) && Request(t, key) == t
  {}

  // ---------------------------------------------------------------- facts about histories

  lemma {:induction false} ReplayPrefix(history: seq<Effect>, n: nat)
    requires n <= |history| && Replay(history).Some?
    ensures Replay(history[..n]).Some? && Replay(history[..n]).value.Valid()
    decreases |history|
  {
    if n < |history| {
      assert history[..|history| - 1][..n] == history[..n];
      ReplayPrefix(history[..|history| - 1], n);
    } else {
      assert history[..n] == history;
      if history != [] {
        ReplayPrefix(history[..n - 1], n - 1);
        assert history[..n - 1][..n - 1] == history[..n - 1];
        ApplyKeeps(Replay(history[..n - 1]).value, history[n - 1], PlaylistKey([]));
      }
    }
  }

  /** A key keeps its identifier, and the identifier leads back to the key, until the key is removed. */
  lemma {:induction false} LivesUntilRemoved(history: seq<Effect>, i: nat, n: nat)
    requires Replay(history).Some? && i < n <= |history| && history[i].Got?
    requires forall j :: i < j < n ==> !Removes(history[j], history[i].key)
    ensures Replay(history[..n]).Some?
    ensures Lookup(Replay(history[..n]).value, history[i].key) == Some(history[i].id)
    ensures KeyOf(Replay(history[..n]).value, history[i].key, history[i].id) == Some(history[i].key)
    decreases n
  {
    ReplayPrefix(history, n);
    ReplayPrefix(history, n - 1);
    assert history[..n][..n - 1] == history[..n - 1];
    if n > i + 1 {
      LivesUntilRemoved(history, i, n - 1);
    }
    ApplyKeeps(Replay(history[..n - 1]).value, history[n - 1], history[i].key);
    LookupsInvert(Replay(history[..n]).value, history[i].key);
  }

  /** Two answers for one key with no removal of it in between are the same. */
  lemma SameAnswer(history: seq<Effect>, i: nat, j: nat)
    requires Replay(history).Some? && i < j < |history|
    requires history[i].Got? && history[j].Got? && history[i].key == history[j].key
    requires forall m :: i < m < j ==> !Removes(history[m], history[i].key)
    ensures history[i].id == history[j].id
  {
    hide Request, Answer, Lookup, Replay, KeyOf, Tables.Valid, Removes;
    LivesUntilRemoved(history, i, j);
    ReplayPrefix(history, j);
    AppliedAt(history, j);
    LookupsInvert(Replay(history[..j]).value, history[i].key);
  }

  lemma AppliedAt(history: seq<Effect>, j: nat)
    requires Replay(history).Some? && j < |history|
    ensures Replay(history[..j]).Some? && Apply(Replay(history[..j]).value, history[j]).Some?
  {
    hide Apply;
    ReplayPrefix(history, j + 1);
    assert history[..j + 1][..j] == history[..j];
  }

  // ---------------------------------------------------------------- threads

  /** Where a get-or-generate call stands; `since` and `at` index the history of effects. */
  datatype Phase =
    | Idle
    | Called(key: Key, since: nat)
    | Missed(key: Key, since: nat)
    | Answered(key: Key, id: nat, since: nat, at: nat)
    | Overflowed

  /** A finished call: what it asked, what it got, and how long the history was at its start and end. */
  datatype Call = Call(key: Key, id: nat, since: nat, at: nat, until: nat)

  datatype State = State(tables: Tables, threads: map<nat, Phase>, history: seq<Effect>, calls: seq<Call>)

  datatype Step =
    | Invoke(thread: nat, key: Key)
    | ReadCheck(thread: nat)
    | WriteSection(thread: nat)
    | Return(thread: nat)
    | RemovePlaylist(playlist: Text)
    | RemoveItems(playlist: Text)

  const INITIAL := State(EMPTY, map[], [], [])

  function PhaseOf(s: State, thread: nat): Phase {
    if thread in s.threads then s.threads[thread] else Idle
  }

  function Happened(s: State, tables: Tables, e: Effect): State {
    s.(tables := tables, history := s.history + [e])
  }

  /** One critical section, call or return. A step its thread is not ready for changes nothing. */
  function Do(s: State, step: Step): State {
    match step
    case Invoke(t, key) =>
      if PhaseOf(s, t).Idle? then s.(threads := s.threads[t := Called(key, |s.history|)]) else s
    case ReadCheck(t) =>
      var ph := PhaseOf(s, t);
      if !ph.Called? then s
      else if Lookup(s.tables, ph.key).None? then s.(threads := s.threads[t := Missed(ph.key, ph.since)])
      else Finish(s, t, ph.key, Lookup(s.tables, ph.key).value, ph.since, s.tables)
    case WriteSection(t) =>
      var ph := PhaseOf(s, t);
      if !ph.Missed? then s
      else if Lookup(s.tables, ph.key).Some?
      then Finish(s, t, ph.key, Lookup(s.tables, ph.key).value, ph.since, s.tables)
      else if Answer(s.tables, ph.key).None? then s.(threads := s.threads[t := Overflowed])
      else Finish(s, t, ph.key, Answer(s.tables, ph.key).value, ph.since, Request(s.tables, ph.key))
    case Return(t) =>
      var ph := PhaseOf(s, t);
      if !ph.Answered? then s
      else s.(threads := s.threads[t := Idle], calls := s.calls + [Call(ph.key, ph.id, ph.since, ph.at, |s.history|)])
    case RemovePlaylist(p) => Happened(s, s.tables.WithoutItems(p).WithoutPlaylist(p), RemovedPlaylist(p))
    case RemoveItems(p) => Happened(s, s.tables.WithoutItems(p), RemovedItems(p))
  }

  function Finish(s: State, t: nat, key: Key, id: nat, since: nat, tables: Tables): State {
    Happened(s, tables, Got(key, id)).(threads := s.threads[t := Answered(key, id, since, |s.history|)])
  }

  function Run(s: State, steps: seq<Step>): State
    decreases |steps|
  {
    if steps == [] then s else Run(Do(s, steps[0]), steps[1..])
  }

  // ---------------------------------------------------------------- linearizability

  ghost predicate CallExplained(c: Call, history: seq<Effect>) {
    c.since <= c.at < c.until <= |history| && history[c.at] == Got(c.key, c.id)
  }

  ghost predicate PhaseExplained(ph: Phase, history: seq<Effect>) {
    match ph
    case Called(_, since) => since <= |history|
    case Missed(_, since) => since <= |history|
    case Answered(key, id, since, at) => since <= at < |history| && history[at] == Got(key, id)
    case _ => true
  }

  /** The tables are what the effects so far make them one after the other, and every call took
      effect once between its start and its end. */
  ghost predicate Linearized(s: State) {
    && Replay(s.history) == Some(s.tables)
    && s.tables.Valid()
    && (forall c :: c in s.calls ==> CallExplained(c, s.history))
    && (forall t :: t in s.threads ==> PhaseExplained(s.threads[t], s.history))
  }

  lemma HappenedLinearized(s: State, tables: Tables, e: Effect)
    requires Linearized(s) && Apply(s.tables, e) == Some(tables)
    ensures Linearized(Happened(s, tables, e))
  {
    var s' := Happened(s, tables, e);
    hide HashOf, ItemHash, Request, Answer;
    assert s'.history[..|s'.history| - 1] == s.history;
    ApplyKeeps(s.tables, e, PlaylistKey([]));
  }

  lemma FinishLinearized(s: State, t: nat, key: Key, id: nat, since: nat, tables: Tables)
    requires Linearized(s) && Apply(s.tables, Got(key, id)) == Some(tables) && since <= |s.history|
    ensures Linearized(Finish(s, t, key, id, since, tables))
  {
    HappenedLinearized(s, tables, Got(key, id));
    hide Replay, Answer, Request;
  }

  lemma StepLinearized(s: State, step: Step)
    requires Linearized(s)
    ensures Linearized(Do(s, step))
  {
    hide Replay, Answer, Request, Lookup, Finish, Happened;
    match step
    case Invoke(t, key) =>
    case ReadCheck(t) =>
      var ph := PhaseOf(s, t);
      if ph.Called? && Lookup(s.tables, ph.key).Some? {
        LookupsInvert(s.tables, ph.key);
        FinishLinearized(s, t, ph.key, Lookup(s.tables, ph.key).value, ph.since, s.tables);
      }
    case WriteSection(t) =>
      var ph := PhaseOf(s, t);
      if ph.Missed? {
        if Lookup(s.tables, ph.key).Some? {
          LookupsInvert(s.tables, ph.key);
          FinishLinearized(s, t, ph.key, Lookup(s.tables, ph.key).value, ph.since, s.tables);
        } else if Answer(s.tables, ph.key).Some? {
          FinishLinearized(s, t, ph.key, Answer(s.tables, ph.key).value, ph.since, Request(s.tables, ph.key));
        }
      }
    case Return(t) =>
    case RemovePlaylist(p) => HappenedLinearized(s, s.tables.WithoutItems(p).WithoutPlaylist(p), RemovedPlaylist(p));
    case RemoveItems(p) => HappenedLinearized(s, s.tables.WithoutItems(p), RemovedItems(p));
  }

  lemma {:induction false} RunLinearized(s: State, steps: seq<Step>)
    requires Linearized(s)
    ensures Linearized(Run(s, steps))
    decreases |steps|
  {
    if steps != [] {
      StepLinearized(s, steps[0]);
      RunLinearized(Do(s, steps[0]), steps[1..]);
    }
  }

  /** Any interleaving of any number of threads is linearizable: the effects form a sequential history
      that leads to the tables, and each finished call had its effect between its start and its end. */
  lemma Linearizable(steps: seq<Step>)
    ensures var s := Run(INITIAL, steps);
      && Replay(s.history) == Some(s.tables)
      && s.tables.Valid()
      && forall c :: c in s.calls ==> CallExplained(c, s.history)
  {
    EmptyValid();
    RunLinearized(INITIAL, steps);
  }

  /** Concurrent calls for one key get one identifier unless the key is removed between them. */
  lemma ConcurrentCallsAgree(steps: seq<Step>, c: Call, d: Call)
    requires var s := Run(INITIAL, steps);
      && c in s.calls && d in s.calls && c.key == d.key && c.at < d.at
      && forall m :: c.at < m < d.at && m < |s.history| ==> !Removes(s.history[m], c.key)
    ensures c.id == d.id
  {
    Linearizable(steps);
    SameAnswer(Run(INITIAL, steps).history, c.at, d.at);
  }

  /** A call left alone returns what the tables answer, and files it. */
  lemma UndisturbedCallReturns(s: State, t: nat, key: Key)
    requires s.tables.Valid() && PhaseOf(s, t).Idle? && Answer(s.tables, key).Some?
    ensures var s' := Do(Do(Do(Do(s, Invoke(t, key)), ReadCheck(t)), WriteSection(t)), Return(t));
      && s'.tables == Request(s.tables, key) && PhaseOf(s', t).Idle?
      && s'.calls == s.calls + [Call(key, Answer(s.tables, key).value, |s.history|, |s.history|, |s.history| + 1)]
  {
    if Lookup(s.tables, key).Some? {
      LookupsInvert(s.tables, key);
    }
    hide Answer, Request, Lookup, Tables.Valid;
    var s1 := Do(s, Invoke(t, key));
    var s2 := Do(s1, ReadCheck(t));
    var s3 := Do(s2, WriteSection(t));
  }
}
