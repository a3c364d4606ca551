/** The predictors' parse tree of markov.h: a mutable graph walked by a cursor. */
module ParseTree {
  import opened Basics
  import opened Predictions
  import opened Tries

  const PARSE_TREE_ROOT_KEY: int := -2

  datatype Malgo = Lz | Ppm

  // The properties of a vertex; status is 'R', 'N' or 'L'.
  datatype Props = Props(key: int, numVisit: nat, status: char)

  /* The graph read as a tree: the path of keys from the root to each vertex, the
     vertex at the end of each path, and the vertices' visits by path. */

  datatype Paths = Paths(words: seq<Word>, at: map<Word, nat>, visits: map<Word, nat>)
  {
    // words and at are inverse to each other.
    ghost predicate Paired()
    {
      && (forall v: nat {:trigger words[v]} :: v < |words| ==> words[v] in at && at[words[v]] == v)
      && (forall w {:trigger at[w]} {:trigger w in at} :: w in at ==> at[w] < |words| && words[at[w]] == w)
    }

    // Every vertex but the root hangs below another.
    ghost predicate Closed()
    {
      forall w {:trigger w in at} :: w in at && w != [] ==> w[..|w| - 1] in at
    }

    ghost predicate Ok()
    {
      0 < |words| && words[0] == [] && visits.Keys == at.Keys && Paired() && Closed()
    }

    function Visited(v: nat): Paths
      requires v < |words|
    {
      this.(visits := Bump(visits, words[v]))
    }

    function Grown(v: nat, key: int, n: nat): Paths
      requires v < |words|
    {
      var w := words[v] + [key];
      Paths(words + [w], at[w := |words|], visits[w := n])
    }

    lemma VisitedOk(v: nat)
      requires v < |words| && Ok()
      ensures words[v] in visits && Visited(v).Ok()
    {
      hide Closed;
      ClosedAgain(Visited(v));
    }

    lemma ClosedAgain(p: Paths)
      requires p.at == at
      ensures p.Closed() == Closed()
    {
    }

    lemma GrownOk(v: nat, key: int, n: nat)
      requires v < |words| && Ok() && words[v] + [key] !in at
      ensures Grown(v, key, n).Ok()
    {
      var w, p := words[v] + [key], Grown(v, key, n);
      assert w[..|words[v]|] == words[v];
      assert p.Paired() by {
        hide Closed;
      }
      assert p.Closed();
    }

    lemma {:induction false} PrefixIn(w: Word, u: Word)
      requires Ok() && w in at && u <= w
      ensures u in at
      decreases |w|
    {
      hide Paired;
      if u != w {
        PrefixIn(w[..|w| - 1], u);
      }
    }

    // Nothing hangs below a path that is not there.
    lemma BareBelow(w: Word, k: int)
      requires Ok() && w !in at
      ensures w + [k] !in at
    {
      assert (w + [k])[..|w|] == w;
    }
  }

  // A vertex's own properties: its visits, its key, the last of its path, and
  // status 'R' for the root alone.
  ghost predicate VertexOk(p: Props, g: Paths, v: nat)
    requires v < |g.words|
  {
    var w := g.words[v];
    && w in g.visits && g.visits[w] == p.numVisit
    && (p.status == 'R' <==> v == 0)
    && (0 < v ==> w != [] && w[|w| - 1] == p.key)
  }

  // The out-edges of v lead to exactly the vertices one key further.
  ghost predicate EdgesOk(out: seq<nat>, g: Paths, v: nat)
    requires v < |g.words|
  {
    && Distinct(out)
    && (forall u: nat :: u in out ==> IsEdge(g, v, u))
    && (forall u: nat :: IsEdge(g, v, u) ==> u in out)
  }

  ghost predicate IsEdge(g: Paths, v: nat, u: nat)
    requires v < |g.words|
  {
    u < |g.words| && g.words[u] != [] && g.words[u][..|g.words[u]| - 1] == g.words[v]
  }

  ghost predicate IsTree(props: seq<Props>, adj: seq<seq<nat>>, g: Paths)
  {
    && |props| == |adj| == |g.words| && g.Ok()
    && (forall v: nat {:trigger props[v]} :: v < |props| ==> VertexOk(props[v], g, v))
    && (forall v: nat {:trigger adj[v]} :: v < |adj| ==> EdgesOk(adj[v], g, v))
  }

  // One more visit for vertex v.
  lemma TreeVisited(props: seq<Props>, adj: seq<seq<nat>>, g: Paths, v: nat)
    requires v < |props| && IsTree(props, adj, g)
    ensures IsTree(props[v := props[v].(numVisit := props[v].numVisit + 1)], adj, g.Visited(v))
  {
    hide Paths.Ok, EdgesOk, VertexOk;
    var q, h := props[v := props[v].(numVisit := props[v].numVisit + 1)], g.Visited(v);
    g.VisitedOk(v);
    forall u: nat | u < |q| ensures VertexOk(q[u], h, u) {
      assert VertexOk(props[u], g, u) && VertexOk(props[v], g, v);
      VertexVisited(props[u], props[v], g, u, v);
    }
    forall u: nat | u < |adj| ensures EdgesOk(adj[u], h, u) {
      SameEdges(adj[u], g, h, u);
    }
  }

  lemma VertexVisited(p: Props, pv: Props, g: Paths, u: nat, v: nat)
    requires u < |g.words| && v < |g.words| && g.Ok() && VertexOk(p, g, u) && VertexOk(pv, g, v)
    ensures VertexOk(if u == v then pv.(numVisit := pv.numVisit + 1) else p, g.Visited(v), u)
  {
    hide Paths.Closed;
  }

  lemma SameEdges(out: seq<nat>, g: Paths, h: Paths, v: nat)
    requires v < |g.words| && g.words == h.words && EdgesOk(out, g, v)
    ensures EdgesOk(out, h, v)
  {
    assert forall u: nat :: IsEdge(g, v, u) <==> IsEdge(h, v, u);
  }

  // Changing a status between 'N' and 'L' changes nothing else.
  lemma TreeRelabelled(props: seq<Props>, adj: seq<seq<nat>>, g: Paths, v: nat, c: char)
    requires v < |props| && props[v].status != 'R' && c != 'R' && IsTree(props, adj, g)
    ensures IsTree(props[v := props[v].(status := c)], adj, g)
  {
    hide Paths.Ok, EdgesOk;
    assert VertexOk(props[v], g, v);
  }

  // A new vertex below v.
  lemma TreeGrown(props: seq<Props>, adj: seq<seq<nat>>, g: Paths, v: nat, p: Props)
    requires v < |props| && IsTree(props, adj, g) && p.status != 'R' && g.words[v] + [p.key] !in g.at
    ensures IsTree(props + [p], (adj + [[]])[v := adj[v] + [|props|]], g.Grown(v, p.key, p.numVisit))
  {
    hide Paths.Ok, EdgesOk, VertexOk, Distinct;
    var q, a, h := props + [p], (adj + [[]])[v := adj[v] + [|props|]], g.Grown(v, p.key, p.numVisit);
    g.GrownOk(v, p.key, p.numVisit);
    forall u: nat | u < |q| ensures VertexOk(q[u], h, u) {
      if u < |props| {
        assert VertexOk(props[u], g, u);
      }
      VertexGrown(q[u], g, v, p, u);
    }
    forall u: nat | u < |a| ensures EdgesOk(a[u], h, u) {
      if u < |props| {
        assert EdgesOk(adj[u], g, u);
        EdgesGrown(adj[u], g, v, p, u);
      } else {
        EdgesNew(g, v, p);
      }
    }
  }

  lemma VertexGrown(x: Props, g: Paths, v: nat, p: Props, u: nat)
    requires v < |g.words| && u <= |g.words| && g.Ok() && p.status != 'R' && g.words[v] + [p.key] !in g.at
    requires if u < |g.words| then VertexOk(x, g, u) else x == p
    ensures VertexOk(x, g.Grown(v, p.key, p.numVisit), u)
  {
    hide Paths.Closed;
  }

  lemma EdgesGrown(out: seq<nat>, g: Paths, v: nat, p: Props, u: nat)
    requires v < |g.words| && u < |g.words| && g.Ok() && EdgesOk(out, g, u)
    ensures EdgesOk(if u == v then out + [|g.words|] else out, g.Grown(v, p.key, p.numVisit), u)
  {
    hide Paths.Closed;
    var n, h, w := |g.words|, g.Grown(v, p.key, p.numVisit), g.words[v] + [p.key];
    assert w[..|w| - 1] == g.words[v];
    assert g.at[g.words[u]] == u && g.at[g.words[v]] == v;
    assert IsEdge(h, u, n) <==> u == v;
    assert forall x: nat :: x != n ==> (IsEdge(h, u, x) <==> IsEdge(g, u, x));
    assert n !in out by {
      assert !IsEdge(g, u, n);
    }
  }

  lemma EdgesNew(g: Paths, v: nat, p: Props)
    requires v < |g.words| && g.Ok() && g.words[v] + [p.key] !in g.at
    ensures EdgesOk([], g.Grown(v, p.key, p.numVisit), |g.words|)
  {
    var n, h, w := |g.words|, g.Grown(v, p.key, p.numVisit), g.words[v] + [p.key];
    forall u: nat ensures !IsEdge(h, n, u) {
      if u < n {
        assert g.words[u] in g.at;
      } else if u == n {
        assert |w[..|w| - 1]| < |w|;
      }
    }
  }

  // The last min(k, |h|) keys of the history.
  function Tail(h: seq<int>, k: nat): seq<int>
  {
    if |h| <= k then h else h[|h| - k..]
  }

  class ParseTree {
    const malgo: Malgo
    const contextSize: nat

    var props: seq<Props>
    var adj: seq<seq<nat>>
    var root: nat
    var preCur: nat
    var cur: nat
    var context: seq<int>

    ghost var paths: Paths
    ghost var history: seq<int>

    ghost predicate Shape()
      reads this
    {
      IsTree(props, adj, paths) && root == 0 && cur < |props| && preCur < |props|
    }

    // Between calls the graph is exactly the tree of the whole history.
    ghost predicate Valid()
      reads this
    {
      && Shape()
      && match malgo
         case Lz => Tree(paths.visits, paths.words[cur]) == LzTree(history)
         case Ppm =>
           1 <= contextSize && cur == root && paths.visits == PpmTree(history, contextSize) &&
           context == Tail(history, contextSize)
    }

    constructor (malgo: Malgo, contextSize: nat)
      requires malgo == Ppm ==> 1 <= contextSize
      ensures Valid() && history == [] && this.malgo == malgo && this.contextSize == contextSize
      ensures props == [Props(-2, 0, 'R')] && adj == [[]]
    {
      this.malgo, this.contextSize := malgo, contextSize;
      props := [Props(PARSE_TREE_ROOT_KEY, 0, 'R')];
      adj := [[]];
      root, preCur, cur, context := 0, 0, 0, [];
      paths, history := Paths([[]], map[[] := 0], map[[] := 0]), [];
    }

    // does_vertex_have_key_in_adjs
    method FindChild(v: nat, key: int) returns (found: bool, child: nat)
      requires Shape() && v < |props|
      ensures found <==> paths.words[v] + [key] in paths.at
      ensures found ==> child < |props| && paths.words[child] == paths.words[v] + [key]
    {
      hide Paths.Ok, Distinct;
      ghost var g, w := paths, paths.words[v] + [key];
      assert EdgesOk(adj[v], g, v);
      for i := 0 to |adj[v]|
        invariant forall j :: 0 <= j < i ==> adj[v][j] < |props| && props[adj[v][j]].key != key
      {
        var u := adj[v][i];
        assert u in adj[v] && IsEdge(g, v, u);
        assert VertexOk(props[u], g, u);
        ChildPath(props, g, v, u);
        if props[u].key == key {
          return true, u;
        }
      }
      ChildListed(props, adj, g, v, key);
      found, child := false, 0;
    }

    method MoveCur(incNumVisit: bool, v: nat)
      requires Shape() && v < |props|
      modifies this`preCur, this`cur, this`props, this`paths
      ensures Shape() && cur == v && preCur == old(cur) && |props| == old(|props|)
      ensures paths == if incNumVisit then old(paths).Visited(v) else old(paths)
      ensures !incNumVisit ==> props == old(props)
    {
      hide IsTree;
      RootFacts(props, adj, paths);
      preCur := cur;
      cur := v;
      if incNumVisit {
        TreeVisited(props, adj, paths, v);
        paths := paths.Visited(v);
        props := props[v := props[v].(numVisit := props[v].numVisit + 1)];
      }
    }

    // add_vertex and add_directed_edge
    method AddBelow(v: nat, p: Props) returns (leaf: nat)
      requires Shape() && v < |props| && p.status != 'R' && paths.words[v] + [p.key] !in paths.at
      modifies this`props, this`adj, this`paths
      ensures Shape() && leaf == old(|props|) && |props| == old(|props|) + 1
      ensures paths == old(paths).Grown(v, p.key, p.numVisit)
    {
      hide Paths.Ok, EdgesOk, VertexOk;
      TreeGrown(props, adj, paths, v, p);
      leaf := |props|;
      paths := paths.Grown(v, p.key, p.numVisit);
      props := props + [p];
      adj := (adj + [[]])[v := adj[v] + [leaf]];
    }

    method CreateConnectLeaf(v: nat, key: int) returns (leaf: nat)
      requires Shape() && v < |props| && paths.words[v] + [key] !in paths.at
      modifies this`props, this`adj, this`paths
      ensures Shape() && leaf == old(|props|) && |props| == old(|props|) + 1
      ensures paths == old(paths).Grown(v, key, 1)
    {
      if props[v].status == 'L' {
        TreeRelabelled(props, adj, paths, v, 'N');
        props := props[v := props[v].(status := 'N')];
      }
      leaf := AddBelow(v, Props(key, 1, 'L'));
    }

    method AddAccessLz(key: int)
      requires Valid() && malgo == Lz
      modifies this
      ensures Valid() && history == old(history) + [key]
    {
      hide IsTree, Paths.Ok, LzTree;
      RootFacts(props, adj, paths);
      PathsOk(props, adj, paths);
      ghost var g, w := paths, paths.words[cur] + [key];
      LzTreeStep(history, key);
      OkFacts(paths, cur);
      var found, leafToGo := FindChild(cur, key);
      if found {
        MoveCur(true, leafToGo);
      } else {
        g.BareBelow(w, BACK_TO_ROOT);
        var leaf := CreateConnectLeaf(cur, key);
        var marked, backToRootLeaf := FindChild(leaf, BACK_TO_ROOT);
        if !marked {
          var marker := CreateConnectLeaf(leaf, BACK_TO_ROOT);
        }
        RootFacts(props, adj, paths);
        PathsOk(props, adj, paths);
        OkFacts(paths, root);
        MoveCur(true, root);
      }
      history := history + [key];
    }

    method AddAccess(key: int)
      requires Valid()
      modifies this
      ensures Valid() && history == old(history) + [key]
    {
      match malgo
      case Lz => AddAccessLz(key);
      case Ppm => AddAccessPpm(key);
    }

    // Walks down the context as far as the tree goes.
    method MoveCurOnContext(incNumVisit: bool) returns (walked: nat)
      requires Shape() && cur == root
      modifies this`preCur, this`cur, this`props, this`paths
      ensures Shape() && walked <= |context| && |props| == old(|props|)
      ensures paths.words == old(paths).words && paths.at == old(paths).at && paths.words[cur] == context[..walked]
      ensures walked < |context| ==> context[..walked + 1] !in paths.at
      ensures paths.visits == if incNumVisit then BumpPath(old(paths).visits, context, walked) else old(paths).visits
      ensures !incNumVisit ==> props == old(props)
    {
      hide Paths.Ok, EdgesOk, VertexOk, BumpPath;
      OkFacts(paths, cur);
      ghost var v0 := paths.visits;
      BumpNone(v0, context);
      walked := 0;
      for i := 0 to |context|
        invariant walked == i && Shape() && |props| == old(|props|)
        invariant paths.words == old(paths).words && paths.at == old(paths).at && paths.words[cur] == context[..i]
        invariant paths.visits == if incNumVisit then BumpPath(v0, context, i) else v0
        invariant !incNumVisit ==> props == old(props)
      {
        assert context[..i + 1] == context[..i] + [context[i]];
        BumpMore(v0, context, i);
        var found, leafToGo := FindChild(cur, context[i]);
        if found {
          MoveCur(incNumVisit, leafToGo);
          walked := walked + 1;
        } else {
          return;
        }
      }
    }

    // Makes the part of the context that the tree lacks, and walks down it.
    method CreateMoveCurOnContext(walked: nat, ghost v0: map<Word, nat>)
      requires Shape() && walked <= |context| && paths.words[cur] == context[..walked]
      requires walked < |context| ==> context[..walked + 1] !in paths.at
      requires paths.visits == BumpPath(v0, context, walked)
      modifies this`preCur, this`cur, this`props, this`adj, this`paths
      ensures Shape() && paths.words[cur] == context && paths.visits == BumpPath(v0, context, |context|)
    {
      hide Paths.Ok, EdgesOk, VertexOk, BumpPath;
      for i := walked to |context|
        invariant Shape() && paths.words[cur] == context[..i]
        invariant i < |context| ==> context[..i + 1] !in paths.at
        invariant paths.visits == BumpPath(v0, context, i)
      {
        ghost var w := context[..i + 1];
        assert w == context[..i] + [context[i]];
        if i + 1 < |context| {
          assert context[..i + 2] == w + [context[i + 1]];
          paths.BareBelow(w, context[i + 1]);
        }
        OkFacts(paths, cur);
        BumpMore(v0, context, i);
        var status := if i != |context| - 1 then 'N' else 'L';
        var leaf := AddBelow(cur, Props(context[i], 0, status));
        OkFacts(paths, leaf);
        MoveCur(true, leaf);
        assert paths.visits == Bump(BumpPath(v0, context, i), w);
      }
      assert context[..|context|] == context;
    }

    // One more visit for the vertex one key below the cursor, made if missing.
    method VisitBelow(key: int)
      requires Shape()
      modifies this`preCur, this`cur, this`props, this`adj, this`paths
      ensures Shape() && paths.visits == Bump(old(paths.visits), old(paths.words[cur]) + [key])
    {
      hide Paths.Ok, EdgesOk, VertexOk;
      OkFacts(paths, cur);
      var found, leafToGo := FindChild(cur, key);
      if found {
        MoveCur(true, leafToGo);
      } else {
        var leaf := CreateConnectLeaf(cur, key);
      }
    }

    // Visits the vertices along the context and one key further, and comes back.
    method VisitWindow(key: int)
      requires Shape() && cur == root
      modifies this`preCur, this`cur, this`props, this`adj, this`paths
      ensures Shape() && cur == root
      ensures paths.visits == Bump(BumpPath(old(paths.visits), context + [key], |context| + 1), [])
    {
      hide IsTree, BumpPath;
      ghost var v0, window := paths.visits, context + [key];
      var walked := MoveCurOnContext(true);
      CreateMoveCurOnContext(walked, v0);
      VisitBelow(key);
      RootFacts(props, adj, paths);
      MoveCur(true, root);
      BumpPathPrefix(v0, context, window, |context|);
      BumpMore(v0, window, |context|);
      assert window[..|context| + 1] == window;
    }

    method AddAccessPpm(key: int)
      requires Valid() && malgo == Ppm
      modifies this
      ensures Valid() && history == old(history) + [key]
    {
      hide IsTree, BumpPath, PpmTree;
      ghost var h := history;
      if |context| == contextSize {
        VisitWindow(key);
        context := context[1..];
      }
      context := context + [key];
      history := history + [key];
      PpmTreeStep(h, key, contextSize);
    }

    // Each child's share of total.
    method Shares(v: nat, total: int) returns (shares: map<int, real>)
      requires Shape() && v < |props| && paths.words[v] in paths.at
      requires (exists k :: paths.words[v] + [k] in paths.visits) ==> total > 0
      ensures IsShares(shares, paths.visits, paths.words[v], total)
    {
      hide Paths.Ok, Distinct, Fraction;
      PathsOk(props, adj, paths);
      OkFacts(paths, v);
      ghost var g, w := paths, paths.words[v];
      assert EdgesOk(adj[v], g, v);
      shares := map[];
      for i := 0 to |adj[v]|
        invariant forall j {:trigger adj[v][j]} :: 0 <= j < i ==> adj[v][j] < |props| && props[adj[v][j]].key in shares
        invariant forall k :: k in shares ==>
          w + [k] in g.visits && total > 0 && shares[k] == Fraction(g.visits[w + [k]], total)
      {
        var u := adj[v][i];
        assert u in adj[v] && IsEdge(g, v, u);
        assert VertexOk(props[u], g, u);
        ChildPath(props, g, v, u);
        shares := shares[props[u].key := Fraction(props[u].numVisit, total)];
      }
      forall k | w + [k] in g.visits ensures k in shares {
        ChildListed(props, adj, g, v, k);
      }
    }

    // The visits that the cursor itself holds.
    ghost function Held(): nat
      reads this
    {
      if cur != root && malgo != Ppm then 1 else 0
    }

    // get_key_prob_map_for_prefetch_w_lz: the shares of the cursor's children, or of
    // the root's when the cursor has none but the marker; the marker's key is struck out.
    method KeyProbs() returns (probs: map<int, real>)
      requires Shape() && paths.words[cur] in paths.at && [] in paths.at && paths.visits.Keys == paths.at.Keys
      requires (exists k :: paths.words[cur] + [k] in paths.visits) ==> paths.visits[paths.words[cur]] > Held()
      ensures IsPredicted(probs, paths.visits, paths.words[cur], Held())
    {
      hide Paths.Ok, EdgesOk, IsPredicted;
      assert VertexOk(props[cur], paths, cur) && VertexOk(props[root], paths, root);
      RootFacts(props, adj, paths);
      var total: int := props[cur].numVisit;
      if props[cur].status != 'R' && malgo != Ppm {
        total := total - 1;
      }
      probs := Shares(cur, total);
      OnlyMarkerLeft(probs, paths.visits, paths.words[cur], total);
      if probs == map[] || (|probs| == 1 && BACK_TO_ROOT in probs) {
        total := props[root].numVisit + 1;
        probs := Shares(root, total);
      }
      Struck(probs, paths.visits, paths.words[cur], Held());
      if BACK_TO_ROOT in probs {
        probs := probs - {BACK_TO_ROOT};
      } else {
        assert probs - {BACK_TO_ROOT} == probs;
      }
    }

    // What is predicted, and when it is right: if the cursor's word, or the empty one
    // when nothing followed it, is no marker's and the marker's key never followed it.
    method GetKeyProbsLz() returns (probs: map<int, real>)
      requires Valid() && malgo == Lz
      ensures IsLzPredicted(probs, history)
      ensures IsLzRight(probs, history) <==> !Marker(LzContext(history)) && MarkerApart(paths.visits, LzContext(history))
      ensures -1 !in history ==> IsLz78Prediction(probs, history)
    {
      hide Paths.Ok, EdgesOk, VertexOk, LzTree, IsPredicted, IsLzRight, LzContext, Marker, MarkerApart, IsLz78Prediction;
      PathsOk(props, adj, paths);
      OkFacts(paths, cur);
      RootAlone(paths, cur);
      LzDivisor(history);
      probs := KeyProbs();
      LzRight(probs, history);
      if -1 !in history {
        LzRightWithoutMarkerKey(probs, history);
      }
    }

    // get_key_prob_map_for_prefetch_w_ppm: after the longest stretch of the context
    // that the tree has, each key's share of what followed that stretch before, unless
    // one of those keys was the marker's.
    method GetKeyProbsPpm() returns (probs: map<int, real>, ghost base: Word)
      requires Valid() && malgo == Ppm
      modifies this`preCur, this`cur, this`props, this`paths
      ensures Valid() && props == old(props) && paths == old(paths)
      ensures base <= context && base in paths.at
      ensures |base| < |context| ==> context[..|base| + 1] !in paths.at
      ensures base in paths.visits && [] in paths.visits && IsPredicted(probs, paths.visits, base, 0)
      ensures
        var L := Windows(history, contextSize);
        && (IsFrequencies(probs, L, base, Count(L, base)) <==> base + [-1] !in paths.at)
        && (-1 !in history ==> IsFrequencies(probs, L, base, Count(L, base)))
      ensures contextSize <= |history| ==> context == history[|history| - contextSize..]
    {
      hide Paths.Ok, EdgesOk, VertexOk, PpmTree, IsPredicted, Windows, Count, IsFrequencies;
      var walked := MoveCurOnContext(false);
      PathsOk(props, adj, paths);
      OkFacts(paths, cur);
      base := paths.words[cur];
      PpmDivisor(history, contextSize, base);
      probs := KeyProbs();
      PpmRight(probs, history, contextSize, base);
      if -1 !in history {
        PpmRightWithoutMarkerKey(probs, history, contextSize, base);
      }
      MoveCur(false, root);
    }
  }

  lemma LzTreeStep(h: seq<int>, key: int)
    ensures LzTree(h + [key]) == LzAccess(LzTree(h), key)
  {
    assert (h + [key])[..|h|] == h;
  }

  lemma RootFacts(props: seq<Props>, adj: seq<seq<nat>>, g: Paths)
    requires IsTree(props, adj, g)
    ensures 0 < |props| == |adj| == |g.words| && g.words[0] == []
  {
  }

  lemma PathsOk(props: seq<Props>, adj: seq<seq<nat>>, g: Paths)
    requires IsTree(props, adj, g)
    ensures g.Ok()
  {
  }

  lemma {:induction false} BumpPathPrefix(visits: map<Word, nat>, u: Word, w: Word, n: nat)
    requires n <= |u| && u <= w
    ensures BumpPath(visits, u, n) == BumpPath(visits, w, n)
  {
    if n > 0 {
      BumpPathPrefix(visits, u, w, n - 1);
      assert u[..n] == w[..n];
    }
  }

  lemma PpmTreeStep(h: seq<int>, key: int, k: nat)
    ensures PpmTree(h + [key], k) ==
      if |h| < k then PpmTree(h, k)
      else Bump(BumpPath(PpmTree(h, k), Tail(h, k) + [key], k + 1), [])
  {
    var g := h + [key];
    assert g[..|g| - 1] == h;
    if |h| >= k {
      assert g[|g| - k - 1..] == Tail(h, k) + [key];
    }
  }

  // What the methods need to know of a sound set of paths.
  lemma OkFacts(g: Paths, v: nat)
    requires g.Ok() && v < |g.words|
    ensures 0 < |g.words| && g.words[0] == [] && g.words[v] in g.visits && g.visits.Keys == g.at.Keys && [] in g.at
  {
  }

  lemma RootAlone(g: Paths, v: nat)
    requires g.Ok() && v < |g.words|
    ensures g.words[v] == [] <==> v == 0
  {
    assert g.at[g.words[0]] == 0 && g.at[g.words[v]] == v;
  }

  lemma BumpNone(visits: map<Word, nat>, word: Word)
    ensures BumpPath(visits, word, 0) == visits
  {
  }

  lemma BumpMore(visits: map<Word, nat>, word: Word, n: nat)
    requires n < |word|
    ensures BumpPath(visits, word, n + 1) == Bump(BumpPath(visits, word, n), word[..n + 1])
  {
  }

  lemma ChildPath(props: seq<Props>, g: Paths, v: nat, u: nat)
    requires |props| == |g.words| && v < |props| && g.Ok() && IsEdge(g, v, u) && VertexOk(props[u], g, u)
    ensures g.words[u] == g.words[v] + [props[u].key] && g.words[u] in g.at
  {
  }

  // A path one key below v is the path of a vertex among v's out-edges.
  lemma ChildListed(props: seq<Props>, adj: seq<seq<nat>>, g: Paths, v: nat, key: int)
    requires v < |props| && IsTree(props, adj, g)
    ensures g.words[v] + [key] in g.at ==>
      exists j :: 0 <= j < |adj[v]| && adj[v][j] < |props| && props[adj[v][j]].key == key
  {
    var w := g.words[v] + [key];
    assert EdgesOk(adj[v], g, v);
    if w in g.at {
      var u := g.at[w];
      assert w[..|w| - 1] == g.words[v] && w[|w| - 1] == key;
      assert IsEdge(g, v, u) && VertexOk(props[u], g, u);
      var j :| 0 <= j < |adj[v]| && adj[v][j] == u;
    }
  }
}
