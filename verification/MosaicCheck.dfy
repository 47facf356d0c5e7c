/**
 The breadth-first model checker of Mosaic (Mosaic.check, course2/mosaic/mosaic.py) over an
 operating system given by its steps.
 */
module MosaicCheck {
  import opened Sequences

  /** An operating system: its first state, what a choice does to a state, and of a state its dump,
      with the choices listed in it and its hash code. */
  datatype System<!S(!new), !D(!new)> = System(
    init: S, step: (S, string) -> S, dump: S -> D, choices: D -> seq<string>, hash: D -> string)

  /** A run: the states it goes through and the choices that lead from each to the next. */
  ghost predicate IsRun<S(!new), D(!new)>(sys: System<S, D>, ss: seq<S>, cs: seq<string>)
  {
    && |ss| == |cs| + 1 && ss[0] == sys.init
    && forall k :: 0 <= k < |cs| ==> cs[k] in sys.choices(sys.dump(ss[k])) && ss[k + 1] == sys.step(ss[k], cs[k])
  }

  /** Some run ends in s. */
  ghost predicate Reachable<S(!new), D(!new)>(sys: System<S, D>, s: S)
  {
    exists ss, cs :: IsRun(sys, ss, cs) && ss[|cs|] == s
  }

  /** Equal hash codes mean equal dumps. */
  ghost predicate HashTells<S(!new), D(!new)>(sys: System<S, D>, s: S, t: S)
  {
    sys.hash(sys.dump(s)) == sys.hash(sys.dump(t)) ==> sys.dump(s) == sys.dump(t)
  }

  /** States with equal dumps step alike. */
  ghost predicate DumpTells<S(!new), D(!new)>(sys: System<S, D>, s: S, t: S)
  {
    sys.dump(s) == sys.dump(t) ==>
      forall c :: c in sys.choices(sys.dump(s)) ==> sys.dump(sys.step(s, c)) == sys.dump(sys.step(t, c))
  }

  ghost predicate Faithful<S(!new), D(!new)>(sys: System<S, D>)
  {
    && (forall s, t :: Reachable(sys, s) && Reachable(sys, t) ==> HashTells(sys, s, t))
    && (forall s, t :: Reachable(sys, s) && Reachable(sys, t) ==> DumpTells(sys, s, t))
    && (forall d :: Distinct(sys.choices(d)))
  }

  ghost predicate Distinct<T>(s: seq<T>) { forall i, j :: 0 <= i < j < |s| ==> s[i] != s[j] }

  /** A dump that shows the whole state and a hash without collisions are enough. */
  lemma {:induction false} WholeDumpIsFaithful<S(!new), D(!new)>(sys: System<S, D>)
    requires forall a, b :: sys.dump(a) == sys.dump(b) ==> a == b
    requires forall d, e :: sys.hash(d) == sys.hash(e) ==> d == e
    requires forall d :: Distinct(sys.choices(d))
    ensures Faithful(sys)
  {
  }

  // ----- runs and the traces that replay them -----

  /** OperatingSystem.replay */
  function Replay<S(!new), D(!new)>(sys: System<S, D>, trace: seq<string>): (s: S)
  {
    if trace == [] then sys.init
    else sys.step(Replay(sys, trace[..|trace| - 1]), trace[|trace| - 1])
  }

  function Dump<S(!new), D(!new)>(sys: System<S, D>, trace: seq<string>): (d: D) { sys.dump(Replay(sys, trace)) }

  function Hash<S(!new), D(!new)>(sys: System<S, D>, trace: seq<string>): (h: string) { sys.hash(Dump(sys, trace)) }

  ghost predicate Offers<S(!new), D(!new)>(sys: System<S, D>, d: D, c: string) { c in sys.choices(d) }

  /** Every choice is one of those offered at its place. */
  ghost predicate Valid<S(!new), D(!new)>(sys: System<S, D>, trace: seq<string>)
  {
    trace == [] ||
    var front := trace[..|trace| - 1];
    Valid(sys, front) && Offers(sys, Dump(sys, front), trace[|trace| - 1])
  }

  lemma {:induction false} ValidNext<S(!new), D(!new)>(sys: System<S, D>, trace: seq<string>, c: string)
    ensures Valid(sys, trace + [c]) <==> Valid(sys, trace) && Offers(sys, Dump(sys, trace), c)
  {
    assert (trace + [c])[..|trace|] == trace;
  }

  lemma {:induction false} RunFront<S(!new), D(!new)>(sys: System<S, D>, ss: seq<S>, cs: seq<string>, n: nat)
    requires IsRun(sys, ss, cs) && n < |cs|
    ensures IsRun(sys, ss[..n + 1], cs[..n]) && ss[..n + 1][|cs[..n]|] == ss[n]
  {
  }

  lemma {:induction false} RunMore<S(!new), D(!new)>(sys: System<S, D>, ss: seq<S>, cs: seq<string>, c: string)
    requires IsRun(sys, ss, cs) && c in sys.choices(sys.dump(ss[|cs|]))
    ensures IsRun(sys, ss + [sys.step(ss[|cs|], c)], cs + [c])
  {
    var ss', cs' := ss + [sys.step(ss[|cs|], c)], cs + [c];
    forall k | 0 <= k < |cs'| ensures cs'[k] in sys.choices(sys.dump(ss'[k])) && ss'[k + 1] == sys.step(ss'[k], cs'[k]) {
      if k < |cs| {
        assert cs'[k] == cs[k] && ss'[k] == ss[k] && ss'[k + 1] == ss[k + 1];
      }
    }
  }

  /** Replaying the choices of a run ends where the run ends. */
  lemma {:induction false} RunReplays<S(!new), D(!new)>(sys: System<S, D>, ss: seq<S>, cs: seq<string>)
    requires IsRun(sys, ss, cs)
    ensures Valid(sys, cs) && Replay(sys, cs) == ss[|cs|]
    decreases |cs|
  {
    if cs != [] {
      var n := |cs| - 1;
      RunFront(sys, ss, cs, n);
      RunReplays(sys, ss[..n + 1], cs[..n]);
      assert cs[n] in sys.choices(sys.dump(ss[n])) && ss[n + 1] == sys.step(ss[n], cs[n]);
    }
  }

  /** Every trace that replays is that of a run. */
  lemma {:induction false} ReplayRuns<S(!new), D(!new)>(sys: System<S, D>, trace: seq<string>) returns (ss: seq<S>)
    requires Valid(sys, trace)
    ensures IsRun(sys, ss, trace) && ss[|trace|] == Replay(sys, trace) && Reachable(sys, Replay(sys, trace))
    decreases |trace|
  {
    if trace == [] {
      ss := [sys.init];
    } else {
      var front, c := trace[..|trace| - 1], trace[|trace| - 1];
      ss := ReplayRuns(sys, front);
      RunMore(sys, ss, front, c);
      assert front + [c] == trace;
      ss := ss + [sys.step(ss[|front|], c)];
    }
  }

  lemma {:induction false} SameDump<S(!new), D(!new)>(sys: System<S, D>, s: seq<string>, t: seq<string>)
    requires Faithful(sys) && Valid(sys, s) && Valid(sys, t) && Hash(sys, s) == Hash(sys, t)
    ensures Dump(sys, s) == Dump(sys, t)
  {
    var ss := ReplayRuns(sys, s);
    var ts := ReplayRuns(sys, t);
    assert HashTells(sys, Replay(sys, s), Replay(sys, t));
  }

  /** Runs with the same hash code go on alike. */
  lemma {:induction false} SameNext<S(!new), D(!new)>(sys: System<S, D>, s: seq<string>, t: seq<string>, c: string)
    requires Faithful(sys) && Valid(sys, s) && Valid(sys, t) && Hash(sys, s) == Hash(sys, t)
    ensures Dump(sys, s) == Dump(sys, t)
    ensures Offers(sys, Dump(sys, s), c) ==> Hash(sys, s + [c]) == Hash(sys, t + [c])
  {
    SameDump(sys, s, t);
    var ss := ReplayRuns(sys, s);
    var ts := ReplayRuns(sys, t);
    assert DumpTells(sys, Replay(sys, s), Replay(sys, t));
    assert (s + [c])[..|s|] == s && (t + [c])[..|t|] == t;
  }

  // ----- what the search has found -----

  datatype Vertex<D> = Vertex(dump: D, depth: nat)

  datatype Edge = Edge(source: string, target: string, choice: string)

  /** Each vertex with the trace by which it was found. */
  ghost predicate Found<S(!new), D(!new)>(sys: System<S, D>, V: map<string, Vertex<D>>, T: map<string, seq<string>>)
  {
    && T.Keys == V.Keys
    && (forall h :: h in T ==>
          Valid(sys, T[h]) && Hash(sys, T[h]) == h && V[h] == Vertex(Dump(sys, T[h]), |T[h]|))
  }

  /** The choice c at h has been followed. */
  ghost predicate Followed<S(!new), D(!new)>(sys: System<S, D>, V: map<string, Vertex<D>>, T: map<string, seq<string>>,
                                       E: seq<Edge>, h: string, c: string)
    requires h in V && h in T
  {
    var h' := Hash(sys, T[h] + [c]);
    h' in V && V[h'].depth <= V[h].depth + 1 && Edge(h, h', c) in E
  }

  ghost predicate Closed<S(!new), D(!new)>(sys: System<S, D>, V: map<string, Vertex<D>>, T: map<string, seq<string>>,
                                           E: seq<Edge>, done: set<string>)
    requires T.Keys == V.Keys && done <= V.Keys
  {
    forall h, c {:trigger Followed(sys, V, T, E, h, c)} ::
      h in done && Offers(sys, V[h].dump, c) ==> Followed(sys, V, T, E, h, c)
  }

  /** Every valid trace ends in a vertex that lies no deeper than the trace is long. */
  lemma {:induction false} Complete<S(!new), D(!new)>(sys: System<S, D>, V: map<string, Vertex<D>>, T: map<string, seq<string>>,
                                                E: seq<Edge>, trace: seq<string>)
    requires Faithful(sys) && Found(sys, V, T) && Closed(sys, V, T, E, V.Keys)
    requires Hash(sys, []) in V && V[Hash(sys, [])].depth == 0
    requires Valid(sys, trace)
    ensures var h := Hash(sys, trace);
            h in V && V[h].dump == Dump(sys, trace) && V[h].depth <= |trace|
    decreases |trace|
  {
    var h := Hash(sys, trace);
    if trace != [] {
      var front, c := trace[..|trace| - 1], trace[|trace| - 1];
      assert front + [c] == trace;
      Complete(sys, V, T, E, front);
      var g := Hash(sys, front);
      SameNext(sys, front, T[g], c);
      assert Followed(sys, V, T, E, g, c);
    }
    SameDump(sys, trace, T[h]);
  }

  // ----- the search -----

  datatype Node<D> = Node(trace: seq<string>, state: Vertex<D>, hashcode: string)

  /** State.__init__ and State.extend: a state is found again by replaying its trace. */
  function NodeOf<S(!new), D(!new)>(sys: System<S, D>, trace: seq<string>): (st: Node<D>)
  {
    Node(trace, Vertex(Dump(sys, trace), |trace|), Hash(sys, trace))
  }

  ghost function Hashes<D>(queued: seq<Node<D>>): (hs: set<string>) { set i | 0 <= i < |queued| :: queued[i].hashcode }

  /** The waiting nodes are different vertices, the less deep ones first. */
  ghost predicate Queue<D>(V: map<string, Vertex<D>>, T: map<string, seq<string>>, queued: seq<Node<D>>)
  {
    && (forall i :: 0 <= i < |queued| ==>
          var q := queued[i];
          q.hashcode in V && q.hashcode in T && q.trace == T[q.hashcode] && q.state == V[q.hashcode])
    && (forall i, j :: 0 <= i < j < |queued| ==>
          queued[i].hashcode != queued[j].hashcode && queued[i].state.depth <= queued[j].state.depth)
  }

  ghost predicate NoDeeper<D>(V: map<string, Vertex<D>>, depth: nat) { forall h :: h in V ==> V[h].depth <= depth }

  /** V in the order in which its vertices were found is also ordered by depth. */
  ghost predicate Listed<D>(V: map<string, Vertex<D>>, order: seq<string>)
  {
    && (forall h :: h in V <==> h in order)
    && Distinct(order)
    && (forall i, j :: 0 <= i < j < |order| ==> V[order[i]].depth <= V[order[j]].depth)
  }

  /** Every edge is a followed choice, and none is there twice. */
  ghost predicate Edges<S(!new), D(!new)>(sys: System<S, D>, V: map<string, Vertex<D>>, T: map<string, seq<string>>,
                                          E: seq<Edge>, from: set<string>)
    requires T.Keys == V.Keys
  {
    && (forall i :: 0 <= i < |E| ==>
          var e := E[i];
          e.source in from && e.source in V && Offers(sys, V[e.source].dump, e.choice)
          && e.target == Hash(sys, T[e.source] + [e.choice]))
    && (forall i, j :: 0 <= i < j < |E| ==> (E[i].source, E[i].choice) != (E[j].source, E[j].choice))
  }

  datatype Search<D> = Search(V: map<string, Vertex<D>>, order: seq<string>, queued: seq<Node<D>>, E: seq<Edge>)

  /** A vertex is done or waits. */
  ghost predicate Vertices<S(!new), D(!new)>(sys: System<S, D>, m: Search<D>, T: map<string, seq<string>>,
                                             done: set<string>, queued: seq<Node<D>>)
  {
    && Found(sys, m.V, T) && Listed(m.V, m.order) && Queue(m.V, T, queued)
    && done !! Hashes(queued) && m.V.Keys == done + Hashes(queued)
    && (queued != [] ==> NoDeeper(m.V, queued[0].state.depth + 1))
    && Hash(sys, []) in m.V && m.V[Hash(sys, [])].depth == 0
  }

  /** All choices have been followed at the vertices that are done, and the first k at h. */
  ghost predicate Progress<S(!new), D(!new)>(
      sys: System<S, D>, V: map<string, Vertex<D>>, T: map<string, seq<string>>, E: seq<Edge>,
      done: set<string>, h: string, k: nat)
    requires T.Keys == V.Keys && done <= V.Keys && h in V
  {
    var cs := sys.choices(V[h].dump);
    && k <= |cs| && Closed(sys, V, T, E, done) && Edges(sys, V, T, E, done + {h})
    && (forall i {:trigger Followed(sys, V, T, E, h, cs[i])} :: 0 <= i < k ==> Followed(sys, V, T, E, h, cs[i]))
    && (forall e :: e in E && e.source == h ==> e.choice in cs[..k])
  }

  /** Between two nodes. */
  ghost predicate Between<S(!new), D(!new)>(sys: System<S, D>, m: Search<D>, T: map<string, seq<string>>, done: set<string>)
  {
    && Vertices(sys, m, T, done, m.queued)
    && Closed(sys, m.V, T, m.E, done) && Edges(sys, m.V, T, m.E, done)
  }

  /** At the node st, whose first k choices have been followed. */
  ghost predicate At<S(!new), D(!new)>(sys: System<S, D>, m: Search<D>, T: map<string, seq<string>>, done: set<string>,
                                       st: Node<D>, k: nat)
  {
    && Vertices(sys, m, T, done, [st] + m.queued)
    && st.hashcode in m.V && st.trace == T[st.hashcode] && st.state == m.V[st.hashcode]
    && Progress(sys, m.V, T, m.E, done, st.hashcode, k)
  }

  /** One choice: the state it leads to is found, if it is a new one, and the edge is noted. */
  function Visit<S(!new), D(!new)>(sys: System<S, D>, m: Search<D>, st: Node<D>, c: string): (m': Search<D>)
  {
    var st1 := NodeOf(sys, st.trace + [c]);
    var h := st1.hashcode;
    var e := Edge(st.hashcode, h, c);
    if h in m.V then m.(E := m.E + [e])
    else Search(m.V[h := st1.state], m.order + [h], m.queued + [st1], m.E + [e])
  }

  ghost function Traces<S(!new), D(!new)>(sys: System<S, D>, m: Search<D>, T: map<string, seq<string>>,
                                          st: Node<D>, c: string): (T': map<string, seq<string>>)
  {
    var trace := st.trace + [c];
    if Hash(sys, trace) in m.V then T else T[Hash(sys, trace) := trace]
  }

  // ----- each part of what the search keeps, on its own -----

  lemma {:induction false} FoundMore<S(!new), D(!new)>(sys: System<S, D>, V: map<string, Vertex<D>>,
                                                       T: map<string, seq<string>>, trace: seq<string>)
    requires Found(sys, V, T) && Valid(sys, trace) && Hash(sys, trace) !in V
    ensures var q := NodeOf(sys, trace); Found(sys, V[q.hashcode := q.state], T[q.hashcode := trace])
  {
  }

  lemma {:induction false} ListedMore<D>(V: map<string, Vertex<D>>, order: seq<string>, h: string, v: Vertex<D>)
    requires Listed(V, order) && h !in V && NoDeeper(V, v.depth)
    ensures Listed(V[h := v], order + [h])
  {
    forall i | 0 <= i < |order| ensures order[i] in V { assert order[i] in order; }
  }

  lemma {:induction false} QueueMore<D>(V: map<string, Vertex<D>>, T: map<string, seq<string>>,
                                        queued: seq<Node<D>>, q: Node<D>)
    requires Queue(V, T, queued) && q.hashcode !in V && NoDeeper(V, q.state.depth)
    ensures Queue(V[q.hashcode := q.state], T[q.hashcode := q.trace], queued + [q])
  {
  }

  /** More vertices and edges keep what has been followed. */
  lemma {:induction false} FollowedMore<S(!new), D(!new)>(
      sys: System<S, D>, V: map<string, Vertex<D>>, T: map<string, seq<string>>, E: seq<Edge>,
      V': map<string, Vertex<D>>, T': map<string, seq<string>>, E': seq<Edge>, h: string, c: string)
    requires h in V && h in T && Followed(sys, V, T, E, h, c)
    requires Extends(V, V') && Extends(T, T') && E <= E'
    ensures Followed(sys, V', T', E', h, c)
  {
    var e := Edge(h, Hash(sys, T[h] + [c]), c);
    var i :| 0 <= i < |E| && E[i] == e;
    assert E'[i] == e;
  }

  ghost predicate Extends<K, W>(a: map<K, W>, b: map<K, W>) { forall k :: k in a ==> k in b && b[k] == a[k] }

  lemma {:induction false} ClosedMore<S(!new), D(!new)>(
      sys: System<S, D>, V: map<string, Vertex<D>>, T: map<string, seq<string>>, E: seq<Edge>,
      V': map<string, Vertex<D>>, T': map<string, seq<string>>, E': seq<Edge>, done: set<string>)
    requires T.Keys == V.Keys && T'.Keys == V'.Keys && done <= V.Keys && Closed(sys, V, T, E, done)
    requires Extends(V, V') && Extends(T, T') && E <= E'
    ensures done <= V'.Keys && Closed(sys, V', T', E', done)
  {
    forall h, c | h in done && Offers(sys, V'[h].dump, c) ensures Followed(sys, V', T', E', h, c) {
      FollowedMore(sys, V, T, E, V', T', E', h, c);
    }
  }

  lemma {:induction false} EdgesMore<S(!new), D(!new)>(
      sys: System<S, D>, V: map<string, Vertex<D>>, T: map<string, seq<string>>, E: seq<Edge>,
      V': map<string, Vertex<D>>, T': map<string, seq<string>>, e: Edge, from: set<string>)
    requires T.Keys == V.Keys && T'.Keys == V'.Keys && Edges(sys, V, T, E, from)
    requires Extends(V, V') && Extends(T, T')
    requires e.source in from && e.source in V && Offers(sys, V[e.source].dump, e.choice)
    requires e.target == Hash(sys, T[e.source] + [e.choice])
    requires forall d :: d in E && d.source == e.source ==> d.choice != e.choice
    ensures Edges(sys, V', T', E + [e], from)
  {
    forall i | 0 <= i < |E| ensures (E[i].source, E[i].choice) != (e.source, e.choice) { assert E[i] in E; }
  }

  // ----- a round of the inner loop -----

  lemma NewChoice(cs: seq<string>, k: nat)
    requires Distinct(cs) && k < |cs|
    ensures cs[k] !in cs[..k] && cs[..k + 1] == cs[..k] + [cs[k]]
  {
  }

  lemma {:induction false} ProgressNext<S(!new), D(!new)>(
      sys: System<S, D>, V: map<string, Vertex<D>>, T: map<string, seq<string>>, E: seq<Edge>,
      V': map<string, Vertex<D>>, T': map<string, seq<string>>, done: set<string>, h: string, k: nat)
    requires T.Keys == V.Keys && T'.Keys == V'.Keys && done <= V.Keys && h in V
    requires Progress(sys, V, T, E, done, h, k) && Extends(V, V') && Extends(T, T')
    requires k < |sys.choices(V[h].dump)| && Distinct(sys.choices(V[h].dump))
    requires var h' := Hash(sys, T[h] + [sys.choices(V[h].dump)[k]]); h' in V' && V'[h'].depth <= V[h].depth + 1
    ensures done <= V'.Keys
    ensures var c := sys.choices(V[h].dump)[k];
            Progress(sys, V', T', E + [Edge(h, Hash(sys, T[h] + [c]), c)], done, h, k + 1)
  {
    var cs := sys.choices(V[h].dump);
    var e := Edge(h, Hash(sys, T[h] + [cs[k]]), cs[k]);
    var E' := E + [e];
    NewChoice(cs, k);
    assert Closed(sys, V', T', E', done) by { ClosedMore(sys, V, T, E, V', T', E', done); }
    assert Edges(sys, V', T', E', done + {h}) by { EdgesMore(sys, V, T, E, V', T', e, done + {h}); }
    forall i | 0 <= i < k + 1 ensures Followed(sys, V', T', E', h, cs[i]) {
      if i < k {
        FollowedMore(sys, V, T, E, V', T', E', h, cs[i]);
      } else {
        assert E'[|E|] == e;
      }
    }
  }

  lemma {:induction false} KeysMore<D>(V: map<string, Vertex<D>>, done: set<string>, hs: set<string>, h: string, v: Vertex<D>)
    requires done !! hs && V.Keys == done + hs && h !in V
    ensures done !! hs + {h} && V[h := v].Keys == done + (hs + {h})
  {
  }

  lemma {:induction false} VerticesMore<S(!new), D(!new)>(
      sys: System<S, D>, m: Search<D>, T: map<string, seq<string>>, done: set<string>, queued: seq<Node<D>>,
      m': Search<D>, q: Node<D>)
    requires Vertices(sys, m, T, done, queued) && queued != [] && q == NodeOf(sys, q.trace)
    requires Valid(sys, q.trace) && q.hashcode !in m.V && q.state.depth == queued[0].state.depth + 1
    requires m'.V == m.V[q.hashcode := q.state] && m'.order == m.order + [q.hashcode]
    ensures Vertices(sys, m', T[q.hashcode := q.trace], done, queued + [q])
  {
    assert Found(sys, m'.V, T[q.hashcode := q.trace]) by { FoundMore(sys, m.V, T, q.trace); }
    assert Listed(m'.V, m'.order) by { ListedMore(m.V, m.order, q.hashcode, q.state); }
    assert Queue(m'.V, T[q.hashcode := q.trace], queued + [q]) by { QueueMore(m.V, T, queued, q); }
    assert NoDeeper(m'.V, (queued + [q])[0].state.depth + 1);
    HashesMore(queued, q);
    KeysMore(m.V, done, Hashes(queued), q.hashcode, q.state);
  }

  lemma {:induction false} VisitVertices<S(!new), D(!new)>(
      sys: System<S, D>, m: Search<D>, T: map<string, seq<string>>, done: set<string>, st: Node<D>, c: string)
    requires Vertices(sys, m, T, done, [st] + m.queued) && Valid(sys, st.trace + [c]) && st.state.depth == |st.trace|
    ensures Vertices(sys, Visit(sys, m, st, c), Traces(sys, m, T, st, c), done, [st] + Visit(sys, m, st, c).queued)
  {
    var q, m' := NodeOf(sys, st.trace + [c]), Visit(sys, m, st, c);
    if q.hashcode !in m.V {
      Regroup([st], m.queued, [q]);
      VerticesMore(sys, m, T, done, [st] + m.queued, m', q);
    }
  }

  lemma {:induction false} HashesMore<D>(queued: seq<Node<D>>, q: Node<D>)
    ensures Hashes(queued + [q]) == Hashes(queued) + {q.hashcode}
  {
    var more := queued + [q];
    forall h | h in Hashes(queued) + {q.hashcode} ensures h in Hashes(more) {
      if h == q.hashcode {
        assert more[|queued|].hashcode == h;
      } else {
        var i :| 0 <= i < |queued| && queued[i].hashcode == h;
        assert more[i].hashcode == h;
      }
    }
  }

  /** Every round keeps what the search has found so far. */
  lemma {:induction false} VisitKeeps<S(!new), D(!new)>(sys: System<S, D>, m: Search<D>, T: map<string, seq<string>>,
                                                        done: set<string>, st: Node<D>, k: nat)
    requires Faithful(sys) && At(sys, m, T, done, st, k) && k < |sys.choices(st.state.dump)|
    ensures var c := sys.choices(st.state.dump)[k];
            At(sys, Visit(sys, m, st, c), Traces(sys, m, T, st, c), done, st, k + 1)
  {
    var c := sys.choices(st.state.dump)[k];
    var m', T' := Visit(sys, m, st, c), Traces(sys, m, T, st, c);
    assert Offers(sys, st.state.dump, c);
    ValidNext(sys, st.trace, c);
    VisitVertices(sys, m, T, done, st, c);
    ProgressNext(sys, m.V, T, m.E, m'.V, T', done, st.hashcode, k);
  }

  // ----- a round of the outer loop -----

  lemma {:induction false} HashesFirst<D>(st: Node<D>, queued: seq<Node<D>>)
    ensures Hashes([st] + queued) == {st.hashcode} + Hashes(queued)
  {
    var all := [st] + queued;
    assert all[0] == st;
    forall i | 0 <= i < |queued| ensures queued[i].hashcode in Hashes(all) { assert all[i + 1] == queued[i]; }
  }

  lemma {:induction false} Take<S(!new), D(!new)>(sys: System<S, D>, m: Search<D>, T: map<string, seq<string>>, done: set<string>)
    requires Between(sys, m, T, done) && m.queued != []
    ensures At(sys, m.(queued := m.queued[1..]), T, done, m.queued[0], 0) && m.queued[0].hashcode !in done
  {
    var st := m.queued[0];
    var rest := m.queued[1..];
    assert [st] + rest == m.queued;
    HashesFirst(st, rest);
    QueueRest(m.V, T, st, rest);
  }

  lemma {:induction false} QueueRest<D>(V: map<string, Vertex<D>>, T: map<string, seq<string>>, st: Node<D>, queued: seq<Node<D>>)
    requires Queue(V, T, [st] + queued)
    ensures Queue(V, T, queued) && st.hashcode !in Hashes(queued)
    ensures queued != [] ==> st.state.depth <= queued[0].state.depth
  {
    var all := [st] + queued;
    assert all[0] == st;
    forall i | 0 <= i < |queued| ensures all[i + 1] == queued[i] { }
  }

  lemma {:induction false} VerticesDone<S(!new), D(!new)>(sys: System<S, D>, m: Search<D>, T: map<string, seq<string>>,
                                                          done: set<string>, st: Node<D>)
    requires Vertices(sys, m, T, done, [st] + m.queued)
    ensures Vertices(sys, m, T, done + {st.hashcode}, m.queued)
  {
    HashesFirst(st, m.queued);
    QueueRest(m.V, T, st, m.queued);
    assert ([st] + m.queued)[0] == st;
  }

  lemma {:induction false} ProgressDone<S(!new), D(!new)>(
      sys: System<S, D>, V: map<string, Vertex<D>>, T: map<string, seq<string>>, E: seq<Edge>, done: set<string>, h: string)
    requires T.Keys == V.Keys && done <= V.Keys && h in V
    requires Progress(sys, V, T, E, done, h, |sys.choices(V[h].dump)|)
    ensures Closed(sys, V, T, E, done + {h})
  {
    var cs := sys.choices(V[h].dump);
    forall c | Offers(sys, V[h].dump, c) ensures Followed(sys, V, T, E, h, c) {
      var i :| 0 <= i < |cs| && cs[i] == c;
    }
  }

  lemma {:induction false} Finish<S(!new), D(!new)>(sys: System<S, D>, m: Search<D>, T: map<string, seq<string>>,
                                                    done: set<string>, st: Node<D>)
    requires At(sys, m, T, done, st, |sys.choices(st.state.dump)|)
    ensures Between(sys, m, T, done + {st.hashcode})
  {
    VerticesDone(sys, m, T, done, st);
    ProgressDone(sys, m.V, T, m.E, done, st.hashcode);
  }

  /** The first k choices of st, one after the other. */
  function VisitAll<S(!new), D(!new)>(sys: System<S, D>, m: Search<D>, st: Node<D>, k: nat): (m': Search<D>)
    requires k <= |sys.choices(st.state.dump)|
  {
    if k == 0 then m else Visit(sys, VisitAll(sys, m, st, k - 1), st, sys.choices(st.state.dump)[k - 1])
  }

  ghost predicate AtSome<S(!new), D(!new)>(sys: System<S, D>, m: Search<D>, done: set<string>, st: Node<D>, k: nat)
  {
    exists T :: At(sys, m, T, done, st, k)
  }

  lemma {:induction false} ChoiceKeeps<S(!new), D(!new)>(sys: System<S, D>, m: Search<D>, done: set<string>, st: Node<D>, k: nat,
                                                         m': Search<D>, k': nat)
    requires Faithful(sys) && AtSome(sys, m, done, st, k) && k < |sys.choices(st.state.dump)|
    requires m' == Visit(sys, m, st, sys.choices(st.state.dump)[k]) && k' == k + 1
    ensures AtSome(sys, m', done, st, k')
  {
    var T :| At(sys, m, T, done, st, k);
    VisitKeeps(sys, m, T, done, st, k);
  }

  lemma {:induction false} VisitAllKeeps<S(!new), D(!new)>(sys: System<S, D>, m: Search<D>, done: set<string>, st: Node<D>, k: nat,
                                                           m': Search<D>)
    requires Faithful(sys) && AtSome(sys, m, done, st, 0) && 0 < k <= |sys.choices(st.state.dump)|
    requires m' == VisitAll(sys, m, st, k)
    ensures AtSome(sys, m', done, st, k)
  {
    if k == 1 {
      ChoiceKeeps(sys, m, done, st, 0, m', k);
    } else {
      var m1 := VisitAll(sys, m, st, k - 1);
      VisitAllKeeps(sys, m, done, st, k - 1, m1);
      ChoiceKeeps(sys, m1, done, st, k - 1, m', k);
    }
  }

  /** Every round of the outer loop keeps what the search has found so far. */
  lemma {:induction false} RoundKeeps<S(!new), D(!new)>(
      sys: System<S, D>, m: Search<D>, T: map<string, seq<string>>, done: set<string>, m': Search<D>)
    returns (T': map<string, seq<string>>)
    requires Faithful(sys) && Between(sys, m, T, done) && m.queued != []
    requires var st := m.queued[0];
             m' == VisitAll(sys, m.(queued := m.queued[1..]), st, |sys.choices(st.state.dump)|)
    ensures Between(sys, m', T', done + {m.queued[0].hashcode})
  {
    var st := m.queued[0];
    var k := |sys.choices(st.state.dump)|;
    Take(sys, m, T, done);
    if k > 0 { VisitAllKeeps(sys, m.(queued := m.queued[1..]), done, st, k, m'); }
    T' :| At(sys, m', T', done, st, k);
    Finish(sys, m', T', done, st);
  }

  /** The inner loop. */
  method Explore<S(!new), D(!new)>(sys: System<S, D>, m: Search<D>, st: Node<D>) returns (m': Search<D>)
    ensures m' == VisitAll(sys, m, st, |sys.choices(st.state.dump)|)
  {
    m' := m;
    var cs := sys.choices(st.state.dump);
    for k := 0 to |cs|
      invariant m' == VisitAll(sys, m, st, k)
    {
      var st1 := NodeOf(sys, st.trace + [cs[k]]);
      if st1.hashcode !in m'.V {
        m' := m'.(V := m'.V[st1.hashcode := st1.state], order := m'.order + [st1.hashcode]);
        m' := m'.(queued := m'.queued + [st1]);
      }
      m' := m'.(E := m'.E + [Edge(st.hashcode, st1.hashcode, cs[k])]);
    }
  }

  // ----- the result -----

  /** V holds the end of this run, no deeper than the run is long. */
  ghost predicate Reached<S(!new), D(!new)>(sys: System<S, D>, V: map<string, Vertex<D>>, ss: seq<S>, cs: seq<string>)
    requires IsRun(sys, ss, cs)
  {
    var d := sys.dump(ss[|cs|]);
    sys.hash(d) in V && V[sys.hash(d)].dump == d && V[sys.hash(d)].depth <= |cs|
  }

  ghost predicate RunTo<S(!new), D(!new)>(sys: System<S, D>, ss: seq<S>, cs: seq<string>, h: string, length: nat)
  {
    IsRun(sys, ss, cs) && sys.hash(sys.dump(ss[|cs|])) == h && |cs| == length
  }

  /** At the end of this run, the choice of e leads along e. */
  ghost predicate Leads<S(!new), D(!new)>(sys: System<S, D>, ss: seq<S>, cs: seq<string>, e: Edge)
  {
    && IsRun(sys, ss, cs)
    && var s := ss[|cs|];
       && sys.hash(sys.dump(s)) == e.source && e.choice in sys.choices(sys.dump(s))
       && sys.hash(sys.dump(sys.step(s, e.choice))) == e.target
  }

  /** The vertices are exactly the ends of runs, each with the length of a shortest run to it. */
  ghost predicate ExactVertices<S(!new), D(!new)>(sys: System<S, D>, V: map<string, Vertex<D>>)
  {
    && (forall ss, cs :: IsRun(sys, ss, cs) ==> Reached(sys, V, ss, cs))
    && (forall h :: h in V ==> exists ss, cs :: RunTo(sys, ss, cs, h, V[h].depth))
  }

  /** The edges are exactly the steps out of the ends of runs, each once. */
  ghost predicate ExactEdges<S(!new), D(!new)>(sys: System<S, D>, E: seq<Edge>)
  {
    && (forall e :: e in E <==> exists ss, cs :: Leads(sys, ss, cs, e))
    && Distinct(E)
  }

  lemma {:induction false} VerticesExact<S(!new), D(!new)>(sys: System<S, D>, m: Search<D>, T: map<string, seq<string>>)
    requires Faithful(sys) && Between(sys, m, T, m.V.Keys)
    ensures ExactVertices(sys, m.V)
  {
    forall ss, cs | IsRun(sys, ss, cs) ensures Reached(sys, m.V, ss, cs) {
      RunReplays(sys, ss, cs);
      Complete(sys, m.V, T, m.E, cs);
    }
    forall h | h in m.V ensures exists ss, cs :: RunTo(sys, ss, cs, h, m.V[h].depth) {
      var ss := ReplayRuns(sys, T[h]);
      assert RunTo(sys, ss, T[h], h, m.V[h].depth);
    }
  }

  lemma {:induction false} EdgeLeads<S(!new), D(!new)>(sys: System<S, D>, m: Search<D>, T: map<string, seq<string>>, e: Edge)
    requires Between(sys, m, T, m.V.Keys) && e in m.E
    ensures exists ss, cs :: Leads(sys, ss, cs, e)
  {
    var trace := T[e.source];
    var ss := ReplayRuns(sys, trace);
    assert (trace + [e.choice])[..|trace|] == trace;
    assert Leads(sys, ss, trace, e);
  }

  lemma {:induction false} LeadsEdge<S(!new), D(!new)>(sys: System<S, D>, m: Search<D>, T: map<string, seq<string>>, e: Edge,
                                                       ss: seq<S>, cs: seq<string>)
    requires Faithful(sys) && Between(sys, m, T, m.V.Keys) && Leads(sys, ss, cs, e)
    ensures e in m.E
  {
    RunReplays(sys, ss, cs);
    Complete(sys, m.V, T, m.E, cs);
    assert (cs + [e.choice])[..|cs|] == cs;
    SameNext(sys, cs, T[e.source], e.choice);
    assert Followed(sys, m.V, T, m.E, e.source, e.choice);
  }

  lemma {:induction false} EdgesExact<S(!new), D(!new)>(sys: System<S, D>, m: Search<D>, T: map<string, seq<string>>)
    requires Faithful(sys) && Between(sys, m, T, m.V.Keys)
    ensures ExactEdges(sys, m.E)
  {
    forall e | e in m.E ensures exists ss, cs :: Leads(sys, ss, cs, e) {
      EdgeLeads(sys, m, T, e);
    }
    forall e, ss, cs | Leads(sys, ss, cs, e) ensures e in m.E {
      LeadsEdge(sys, m, T, e, ss, cs);
    }
  }

  /** Mosaic.check, for a system with finitely many reachable hash codes. */
  method Check<S(!new), D(!new)>(sys: System<S, D>, ghost all: set<string>) returns (m: Search<D>)
    requires Faithful(sys) && forall s :: Reachable(sys, s) ==> sys.hash(sys.dump(s)) in all
    ensures ExactVertices(sys, m.V) && ExactEdges(sys, m.E) && Listed(m.V, m.order)
  {
    var st0 := NodeOf(sys, []);
    m := Search(map[st0.hashcode := st0.state], [st0.hashcode], [st0], []);
    ghost var T: map<string, seq<string>>, done: set<string> := map[st0.hashcode := []], {};
    while m.queued != []
      invariant Between(sys, m, T, done)
      decreases all - done
    {
      var st := m.queued[0];
      assert st.hashcode !in done && Valid(sys, st.trace);
      ghost var ss := ReplayRuns(sys, st.trace);
      assert st.hashcode in all;
      var m' := Explore(sys, m.(queued := m.queued[1..]), st);
      T := RoundKeeps(sys, m, T, done, m');
      m, done := m', done + {st.hashcode};
    }
    assert m.V.Keys == done;
    VerticesExact(sys, m, T);
    EdgesExact(sys, m, T);
  }
}
