/** The tournament tree of the merger. Node t has the children 2t and 2t + 1, and the leaf of stream s is
    the node P + s. Every node but the leaves holds the loser of the match between its children. */
module LoserTree {
  datatype Preimage = Preimage(counter: nat, nonce: nat)

  /** struct dict_t */
  datatype Entry = Entry(hash: nat, preimage: Preimage)

  const DUMMY := Entry(0, Preimage(0, 0))

  /** A tree, with what its arrays do not hold: the winner of every subtree, if its streams have all
      started, and the current entry of every stream. */
  datatype Tree = Tree(loser: seq<Entry>, origin: seq<nat>, win: seq<int>, cur: seq<Entry>)

  /** The node a is n or above n. */
  ghost predicate Above(a: nat, n: nat) {
    n == a || (n > a && Above(a, n / 2))
  }

  lemma {:induction false} AboveIsLess(a: nat, n: nat)
    requires Above(a, n)
    ensures a == n || a <= n / 2
  {
    if n > a {
      AboveIsLess(a, n / 2);
    }
  }

  lemma {:induction false} AboveParent(a: nat, n: nat)
    requires Above(a, n)
    ensures Above(a / 2, n)
  {
    if n == a {
      assert n > a / 2 ==> Above(a / 2, n / 2);
    } else {
      AboveParent(a, n / 2);
    }
  }

  lemma {:induction false} BelowOneChild(a: nat, n: nat)
    requires a >= 1
    ensures Above(a, n) <==> n == a || Above(2 * a, n) || Above(2 * a + 1, n)
    ensures !(Above(2 * a, n) && Above(2 * a + 1, n))
  {
    if n > 2 * a + 1 {
      BelowOneChild(a, n / 2);
    }
  }

  lemma {:induction false} RootAboveAll(n: nat)
    requires n >= 1
    ensures Above(1, n)
  {
    if n > 1 {
      RootAboveAll(n / 2);
    }
  }

  ghost predicate Shape(s: Tree) {
    |s.loser| >= 1 && |s.origin| == |s.cur| == |s.loser| && |s.win| == 2 * |s.loser|
  }

  /** Nothing has reached node t yet: it still holds the dummy it was seeded with. */
  ghost predicate Vacant(win: seq<int>, t: nat)
    requires 1 <= t && 2 * t + 1 < |win|
  {
    win[2 * t] < 0 && win[2 * t + 1] < 0
  }

  /** The match at node t: vacant, waiting for the second contestant, or played. */
  ghost predicate NodeOk(s: Tree, t: nat)
    requires Shape(s) && 1 <= t < |s.loser|
  {
    var a, b, w, o := s.win[2 * t], s.win[2 * t + 1], s.win[t], s.origin[t];
    if a < 0 && b < 0 then
      w < 0 && o == t && s.loser[t] == DUMMY
    else
      && o < |s.loser| && s.loser[t] == s.cur[o]
      && if a < 0 || b < 0 then w < 0 && (o == a || o == b)
         else ((w == a && o == b) || (w == b && o == a)) && 0 <= w < |s.loser| && s.cur[w].hash <= s.cur[o].hash
  }

  /** A winner comes from the subtree it has won. */
  ghost predicate Rooted(P: nat, win: seq<int>)
    requires |win| == 2 * P
  {
    forall x | 1 <= x < |win| :: win[x] >= 0 ==> win[x] < P && Above(x, P + win[x])
  }

  /** The dummies left in the tree stand for streams that have not started. */
  ghost predicate Pending(P: nat, win: seq<int>)
    requires |win| == 2 * P
  {
    forall t | 1 <= t < P && Vacant(win, t) :: win[P + t] < 0
  }

  /** The hash 0 belongs to the dummies. */
  ghost predicate Positive(cur: seq<Entry>) {
    forall i | 0 <= i < |cur| :: cur[i].hash > 0
  }

  ghost predicate Consistent(s: Tree) {
    Shape(s) && Rooted(|s.loser|, s.win) && Pending(|s.loser|, s.win) && Positive(s.cur)
      && forall t | 1 <= t < |s.loser| :: NodeOk(s, t)
  }

  ghost predicate Started(s: Tree, i: nat)
    requires Shape(s) && i < |s.loser|
  {
    s.win[|s.loser| + i] >= 0
  }

  /** The champion is the current entry of the stream that wins the whole tree, or a dummy that stands for a stream
      that has not started and is no longer in the tree. */
  ghost predicate Champion(s: Tree, Q: Entry, i: nat)
    requires Shape(s)
  {
    && i < |s.loser|
    && if Started(s, i) then s.win[1] == i && Q == s.cur[i]
       else Q == DUMMY && (i == 0 || !Vacant(s.win, i))
  }

  /** A subtree has a winner only if all its streams have started, and the winner has the least entry. */
  lemma {:induction false} WinnerIsLeast(s: Tree, x: nat, i: nat)
    requires Consistent(s) && i < |s.loser| && 1 <= x < |s.win| && Above(x, |s.loser| + i) && s.win[x] >= 0
    ensures Started(s, i) && 0 <= s.win[x] < |s.loser| && s.cur[s.win[x]].hash <= s.cur[i].hash
    decreases 2 * |s.loser| - x
  {
    var P := |s.loser|;
    if x >= P {
      AboveIsLess(x, P + i);
      AboveIsLess(x, P + s.win[x]);
    } else {
      BelowOneChild(x, P + i);
      assert NodeOk(s, x);
      WinnerIsLeast(s, if Above(2 * x, P + i) then 2 * x else 2 * x + 1, i);
    }
  }

  /** Once no dummy is left, the champion is the least of the current entries. */
  lemma ChampionIsLeast(s: Tree, Q: Entry, i: nat, j: nat)
    requires Consistent(s) && Champion(s, Q, i) && Started(s, i) && j < |s.loser|
    ensures Started(s, j) && Q.hash <= s.cur[j].hash
  {
    RootAboveAll(|s.loser| + j);
    WinnerIsLeast(s, 1, j);
  }

  /** The subtrees that contain the stream of the champion are those it has won, or none if it is a dummy. */
  lemma {:induction false} PathOfChampion(s: Tree, Q: Entry, i: nat, x: nat)
    requires Consistent(s) && Champion(s, Q, i) && 1 <= x < |s.win| && Above(x, |s.loser| + i)
    ensures if Started(s, i) then s.win[x] == i else s.win[x] < 0
    decreases x
  {
    var P := |s.loser|;
    if Started(s, i) {
      if x > 1 {
        AboveParent(x, P + i);
        PathOfChampion(s, Q, i, x / 2);
        assert NodeOk(s, x / 2);
        BelowOneChild(x / 2, P + i);
        assert x == 2 * (x / 2) || x == 2 * (x / 2) + 1;
      }
    } else if s.win[x] >= 0 {
      WinnerIsLeast(s, x, i);
    }
  }

  /** The nodes c and d are the two children of t. */
  ghost predicate Children(t: nat, c: nat, d: nat) {
    t >= 1 && ((c == 2 * t && d == 2 * t + 1) || (c == 2 * t + 1 && d == 2 * t))
  }

  lemma SiblingIsOffPath(t: nat, c: nat, d: nat, n: nat)
    requires Children(t, c, d) && Above(c, n)
    ensures Above(t, n) && !Above(d, n)
  {
    BelowOneChild(t, n);
  }

  lemma {:induction false} AboveLinear(a: nat, b: nat, n: nat)
    requires Above(a, n) && Above(b, n) && a <= b
    ensures Above(a, b)
  {
    if b != n {
      AboveIsLess(b, n);
      AboveLinear(a, b, n / 2);
    }
  }

  /** The nodes between a node and its parent are not on the path. */
  lemma OneParent(t: nat, c: nat, u: nat, n: nat)
    requires Above(c, n) && (c == 2 * t || c == 2 * t + 1) && t < u && Above(u, n)
    ensures u >= c
  {
    if u < c {
      AboveLinear(u, c, n);
      AboveIsLess(u, c);
    }
  }

  /** The children of the other nodes are not the node t. */
  lemma OtherParent(t: nat, u: nat, n: nat)
    requires Above(t, n) && 1 <= u && (u > t || !Above(u, n))
    ensures 2 * u != t && 2 * u + 1 != t
  {
    if 2 * u == t || 2 * u + 1 == t {
      AboveParent(t, n);
    }
  }

  /** What a node on the path of stream i holds, if b is the winner of the child that is off the path: its dummy, or
      the current entry of that winner. */
  ghost predicate Opponent(s: Tree, i: nat, t: nat, b: int)
    requires Shape(s) && 1 <= t < |s.loser|
  {
    if b < 0 then s.loser[t] == DUMMY && s.origin[t] == t && t != i && !Started(s, t)
    else s.origin[t] == b && b != i && b < |s.loser| && s.loser[t] == s.cur[b]
  }

  /** The match that stream i has at node t, whose child d is off its path. */
  ghost predicate Contest(s: Tree, i: nat, first: bool, t: nat, d: nat)
    requires Shape(s) && 1 <= t < |s.loser| && 1 <= d < |s.win|
  {
    Opponent(s, i, t, s.win[d]) && if first then s.win[t] < 0 else s.win[d] >= 0
  }

  /** The opponents of stream i0 at and above the parent of c. The stream has just started if `first`; only then may
      an opponent be missing. */
  ghost predicate Ahead(s: Tree, i0: nat, first: bool, c: nat)
    requires Shape(s)
  {
    forall t: nat, x: nat, d: nat | Children(t, x, d) && x <= c && 2 * t + 1 < |s.win| && Above(x, |s.loser| + i0) ::
      Contest(s, i0, first, t, d)
  }

  /** The new entry of stream i0 has reached node c, and the entry Q of stream i has won there. */
  ghost predicate Rising(s: Tree, i0: nat, first: bool, c: nat, Q: Entry, i: nat) {
    && Shape(s) && Rooted(|s.loser|, s.win) && Pending(|s.loser|, s.win) && Positive(s.cur)
    && i0 < |s.loser| && i < |s.loser| && 1 <= c < |s.win| && Above(c, |s.loser| + i0) && s.win[c] == i && Q == s.cur[i]
    && Ahead(s, i0, first, c)
    && forall t | 1 <= t < |s.loser| :: t >= c || !Above(t, |s.loser| + i0) ==> NodeOk(s, t)
  }

  /** A dummy has come out of the tree. */
  ghost predicate Settled(s: Tree, Q: Entry, i: nat) {
    Consistent(s) && Champion(s, Q, i) && !Started(s, i)
  }

  /** The tree in which stream i has a new current entry. */
  ghost function Renewed(s: Tree, i: nat, e: Entry): (r: Tree)
    requires Shape(s) && i < |s.loser|
    ensures Shape(r) && |r.loser| == |s.loser|
  {
    s.(win := s.win[|s.loser| + i := i], cur := s.cur[i := e])
  }

  lemma RenewedNode(s: Tree, i: nat, e: Entry, t: nat)
    requires Consistent(s) && i < |s.loser| && 1 <= t < |s.loser| && !Above(t, |s.loser| + i)
    ensures NodeOk(Renewed(s, i, e), t)
  {
    BelowOneChild(t, |s.loser| + i);
    assert NodeOk(s, t);
    assert s.win[2 * t] != i && s.win[2 * t + 1] != i;
  }

  lemma OpponentAt(s: Tree, i: nat, t: nat, c: nat, d: nat)
    requires Shape(s) && i < |s.loser| && t < |s.loser| && Children(t, c, d) && NodeOk(s, t)
    requires if Started(s, i) then s.win[c] == s.win[t] == i
             else s.win[c] < 0 && s.win[t] < 0 && (i == 0 || !Vacant(s.win, i))
    requires s.win[d] != i && s.win[d] < |s.loser| && (Vacant(s.win, t) ==> !Started(s, t))
    ensures Contest(s, i, !Started(s, i), t, d)
  {
  }

  lemma OnThePath(s: Tree, Q: Entry, i: nat, t: nat, c: nat, d: nat)
    requires Consistent(s) && Champion(s, Q, i) && t < |s.loser| && Children(t, c, d) && Above(c, |s.loser| + i)
    ensures i < |s.loser| && Shape(s) && NodeOk(s, t)
    ensures Above(t, |s.loser| + i) && !Above(d, |s.loser| + i)
    ensures if Started(s, i) then s.win[c] == s.win[t] == i
            else s.win[c] < 0 && s.win[t] < 0 && (i == 0 || !Vacant(s.win, i))
  {
    SiblingIsOffPath(t, c, d, |s.loser| + i);
    PathOfChampion(s, Q, i, c);
    PathOfChampion(s, Q, i, t);
  }

  lemma FindOpponent(s: Tree, Q: Entry, i: nat, t: nat, c: nat, d: nat)
    requires Consistent(s) && Champion(s, Q, i) && t < |s.loser| && Children(t, c, d) && Above(c, |s.loser| + i)
    ensures Contest(s, i, !Started(s, i), t, d)
  {
    OnThePath(s, Q, i, t, c, d);
    OpponentAt(s, i, t, c, d);
  }

  lemma RenewedContest(s: Tree, i: nat, e: Entry, first: bool, t: nat, c: nat, d: nat)
    requires Shape(s) && i < |s.loser| && 1 <= t < |s.loser| && Children(t, c, d) && Above(c, |s.loser| + i)
      && Contest(s, i, first, t, d)
    ensures Contest(Renewed(s, i, e), i, first, t, d)
  {
    SiblingIsOffPath(t, c, d, |s.loser| + i);
  }

  lemma RenewedPending(s: Tree, Q: Entry, i: nat, e: Entry)
    requires Consistent(s) && Champion(s, Q, i)
    ensures Pending(|s.loser|, Renewed(s, i, e).win)
  {
    var r := Renewed(s, i, e);
    forall t | 1 <= t < |s.loser| && Vacant(r.win, t)
      ensures r.win[|s.loser| + t] < 0
    {
      assert Vacant(s.win, t);
    }
  }

  lemma StartClimb(s: Tree, Q: Entry, i: nat, e: Entry)
    requires Consistent(s) && Champion(s, Q, i) && e.hash > 0
    ensures Rising(Renewed(s, i, e), i, !Started(s, i), |s.loser| + i, e, i)
  {
    var r := Renewed(s, i, e);
    RenewedPending(s, Q, i, e);
    forall t | 1 <= t < |s.loser| && !Above(t, |s.loser| + i)
      ensures NodeOk(r, t)
    {
      RenewedNode(s, i, e, t);
    }
    forall t: nat, c: nat, d: nat | Children(t, c, d) && 2 * t + 1 < |s.win| && Above(c, |s.loser| + i)
      ensures Contest(r, i, !Started(s, i), t, d)
    {
      FindOpponent(s, Q, i, t, c, d);
      RenewedContest(s, i, e, !Started(s, i), t, c, d);
    }
  }

  /** All the other nodes are in order when a node on the path is reached. */
  lemma OtherNode(s: Tree, i0: nat, first: bool, t: nat, c: nat, d: nat, Q: Entry, i: nat, u: nat)
    requires Rising(s, i0, first, c, Q, i) && Children(t, c, d)
    requires 1 <= u < |s.loser| && u != t && (u > t || !Above(u, |s.loser| + i0))
    ensures NodeOk(s, u)
  {
    if Above(u, |s.loser| + i0) {
      OneParent(t, c, u, |s.loser| + i0);
    }
  }

  /** The next node of the path down from x to n, and its sibling. */
  lemma NextOnPath(x: nat, c: nat, n: nat) returns (y: nat, e: nat)
    requires 1 <= x < c && Above(x, n) && Above(c, n)
    ensures Children(x, y, e) && Above(y, n) && y <= c
  {
    AboveIsLess(c, n);
    BelowOneChild(x, n);
    y, e := 2 * x, 2 * x + 1;
    if Above(2 * x + 1, n) {
      y, e := e, y;
    }
    if c < y {
      AboveLinear(c, y, n);
      AboveIsLess(c, y);
    }
  }

  /** While a stream makes its first climb, the nodes ahead are as they were. */
  lemma NodeAhead(s: Tree, i0: nat, c: nat, u: nat)
    requires Shape(s) && i0 < |s.loser| && 1 <= u && c < |s.win| && Ahead(s, i0, true, c) && Above(c, |s.loser| + i0)
    requires Above(u, |s.loser| + i0) && 2 * u + 1 < c
    ensures NodeOk(s, u)
  {
    var x, d := NextOnPath(u, c, |s.loser| + i0);
    assert Contest(s, i0, true, u, d);
    AboveLinear(x, c, |s.loser| + i0);
    AboveIsLess(x, c);
    var y, e := NextOnPath(x, c, |s.loser| + i0);
    assert Contest(s, i0, true, x, e);
  }

  /** A real entry displaces the dummy: the climb ends here, and the dummy goes on. */
  lemma DisplacedNode(s: Tree, i0: nat, first: bool, t: nat, c: nat, d: nat, Q: Entry, i: nat, s': Tree, u: nat)
    requires Rising(s, i0, first, c, Q, i) && t >= 1 && Children(t, c, d) && 1 <= u < |s.loser|
    requires s.win[d] < 0 && s' == s.(loser := s.loser[t := Q], origin := s.origin[t := i])
    requires Contest(s, i0, first, t, d)
    ensures NodeOk(s', u)
  {
    if u == t {
    } else if u < t && Above(u, |s.loser| + i0) {
      NodeAhead(s, i0, c, u);
    } else {
      OtherNode(s, i0, first, t, c, d, Q, i, u);
    }
  }

  lemma Displace(s: Tree, i0: nat, first: bool, t: nat, c: nat, d: nat, Q: Entry, i: nat, s': Tree)
    requires Rising(s, i0, first, c, Q, i) && t >= 1 && Children(t, c, d)
    requires s.win[d] < 0 && s' == s.(loser := s.loser[t := Q], origin := s.origin[t := i])
    ensures s.loser[t] == DUMMY && s.origin[t] == t && Settled(s', DUMMY, t)
  {
    SiblingIsOffPath(t, c, d, |s.loser| + i0);
    assert Contest(s, i0, first, t, d);
    forall u | 1 <= u < |s.loser|
      ensures NodeOk(s', u)
    {
      DisplacedNode(s, i0, first, t, c, d, Q, i, s', u);
    }
  }

  /** The match at node t: the smaller entry goes on, the other one stays. */
  ghost predicate Match(s: Tree, t: nat, Q: Entry, i: nat, s': Tree, Q': Entry, i': nat)
    requires Shape(s) && 1 <= t < |s.loser|
  {
    if s.loser[t].hash < Q.hash then
      Q' == s.loser[t] && i' == s.origin[t] && s' == s.(loser := s.loser[t := Q], origin := s.origin[t := i], win :=
        s.win[t := i'])
    else
      Q' == Q && i' == i && s' == s.(win := s.win[t := i])
  }

  lemma MatchWon(P: nat, win: seq<int>, t: nat, c: nat, d: nat, i: nat)
    requires |win| == 2 * P && Rooted(P, win) && Pending(P, win) && t < P && Children(t, c, d)
    requires i < P && (win[c] == i || win[d] == i)
    ensures Rooted(P, win[t := i]) && Pending(P, win[t := i])
  {
    if win[c] == i {
      AboveParent(c, P + i);
    } else {
      AboveParent(d, P + i);
    }
    var won := win[t := i];
    forall u | 1 <= u < P && Vacant(won, u)
      ensures won[P + u] < 0
    {
      assert Vacant(win, u);
    }
  }

  lemma MatchNode(s: Tree, t: nat, c: nat, d: nat, Q: Entry, i: nat, s': Tree, Q': Entry, i': nat)
    requires Shape(s) && t < |s.loser| && Children(t, c, d) && Match(s, t, Q, i, s', Q', i')
    requires i < |s.loser| && s.win[c] == i && Q == s.cur[i] && s.win[d] == s.origin[t] < |s.loser|
      && s.loser[t] == s.cur[s.origin[t]]
    ensures NodeOk(s', t) && s'.win == s.win[t := i'] && i' < |s.loser| && (s.win[c] == i' || s.win[d] == i')
      && Q' == s'.cur[i']
  {
  }

  lemma SameNode(s: Tree, t: nat, s': Tree, u: nat)
    requires Shape(s) && Shape(s') && |s.loser| == |s'.loser| && 1 <= u < |s.loser| && 1 <= t < |s.loser|
    requires u != t && 2 * u != t && 2 * u + 1 != t && NodeOk(s, u) && s'.cur == s.cur
    requires s'.win == s.win[t := s'.win[t]] && s'.loser[u] == s.loser[u] && s'.origin[u] == s.origin[u]
    ensures NodeOk(s', u)
  {
  }

  /** The matches ahead of node t do not depend on the one at t. */
  lemma AheadOfMatch(s: Tree, i0: nat, first: bool, t: nat, c: nat, s': Tree)
    requires Shape(s) && Shape(s') && |s.loser| == |s'.loser| && i0 < |s.loser| && 1 <= t < |s.loser|
      && Above(t, |s.loser| + i0)
    requires Ahead(s, i0, first, c) && t <= c && s'.cur == s.cur && s'.win == s.win[t := s'.win[t]]
    requires forall u | 1 <= u < |s.loser| :: u != t ==> s'.loser[u] == s.loser[u] && s'.origin[u] == s.origin[u]
    ensures Ahead(s', i0, first, t)
  {
    forall u: nat, x: nat, d: nat | Children(u, x, d) && x <= t && 2 * u + 1 < |s.win| && Above(x, |s.loser| + i0)
      ensures Contest(s', i0, first, u, d)
    {
      SiblingIsOffPath(u, x, d, |s.loser| + i0);
      assert Contest(s, i0, first, u, d);
    }
  }

  lemma NodeOffMatch(s: Tree, i0: nat, first: bool, t: nat, c: nat, d: nat, Q: Entry, i: nat, s': Tree, u: nat)
    requires Rising(s, i0, first, c, Q, i) && 1 <= t < |s.loser| && Children(t, c, d) && Contest(s, i0, first, t, d)
    requires Above(t, |s.loser| + i0)
    requires Shape(s') && |s'.loser| == |s.loser| && 1 <= u < |s.loser| && u != t
      && (u > t || !Above(u, |s.loser| + i0))
    requires s'.cur == s.cur && s'.win == s.win[t := s'.win[t]] && s'.loser[u] == s.loser[u]
      && s'.origin[u] == s.origin[u]
    ensures NodeOk(s', u)
  {
    OtherNode(s, i0, first, t, c, d, Q, i, u);
    OtherParent(t, u, |s.loser| + i0);
    SameNode(s, t, s', u);
  }

  lemma Play(s: Tree, i0: nat, first: bool, t: nat, c: nat, d: nat, Q: Entry, i: nat, s': Tree, Q': Entry, i': nat)
    requires Rising(s, i0, first, c, Q, i) && t >= 1 && Children(t, c, d)
    requires s.win[d] >= 0 && Match(s, t, Q, i, s', Q', i')
    ensures Rising(s', i0, first, t, Q', i')
  {
    SiblingIsOffPath(t, c, d, |s.loser| + i0);
    assert Contest(s, i0, first, t, d);
    MatchNode(s, t, c, d, Q, i, s', Q', i');
    MatchWon(|s.loser|, s.win, t, c, d, i');
    AheadOfMatch(s, i0, first, t, c, s');
    forall u | 1 <= u < |s.loser| && (u >= t || !Above(u, |s.loser| + i0))
      ensures NodeOk(s', u)
    {
      if u != t {
        NodeOffMatch(s, i0, first, t, c, d, Q, i, s', u);
      }
    }
  }

  /** At the root, the climb is over: the entry that has won there is the champion. */
  lemma Crowned(s: Tree, i0: nat, first: bool, Q: Entry, i: nat)
    requires Rising(s, i0, first, 1, Q, i)
    ensures Consistent(s) && Champion(s, Q, i) && Started(s, i)
  {
    RootAboveAll(|s.loser| + i);
    forall t | 1 <= t < |s.loser|
      ensures NodeOk(s, t)
    {
    }
    WinnerIsLeast(s, 1, i);
  }

  lemma NextContest(s: Tree, i0: nat, first: bool, t: nat, c: nat, d: nat, Q: Entry, i: nat)
    requires Rising(s, i0, first, c, Q, i) && Children(t, c, d)
    ensures Contest(s, i0, first, t, d) && s.origin[t] < |s.loser|
  {
  }

  /** One turn of the climb, whatever it meets: a dummy, an opponent, or nothing to do because a dummy is going up. */
  lemma ClimbStep(s: Tree, i0: nat, first: bool, rising: bool, t: nat, c: nat, Q: Entry, i: nat)
    returns (s': Tree, rising': bool)
    requires 1 <= t == c / 2 && Shape(s) && t < |s.loser| && if rising then Rising(s, i0, first, c, Q, i)
      else Settled(s, Q, i)
    ensures var swap := s.loser[t].hash < Q.hash;
      var Q', i' := if swap then s.loser[t] else Q, if swap then s.origin[t] else i;
      && s'.loser == (if swap then s.loser[t := Q] else s.loser)
        && s'.origin == (if swap then s.origin[t := i] else s.origin)
      && s'.cur == s.cur && Shape(s') && s'.win[|s.loser|..] == s.win[|s.loser|..]
      && if rising' then Rising(s', i0, first, t, Q', i') else Settled(s', Q', i')
  {
    var d := if c == 2 * t then 2 * t + 1 else 2 * t;
    s', rising' := s, false;
    if rising {
      assert Children(t, c, d);
      if s.win[d] < 0 {
        s' := s.(loser := s.loser[t := Q], origin := s.origin[t := i]);
        Displace(s, i0, first, t, c, d, Q, i, s');
      } else {
        rising' := true;
        var swap := s.loser[t].hash < Q.hash;
        NextContest(s, i0, first, t, c, d, Q, i);
        var Q', i' := if swap then s.loser[t] else Q, if swap then s.origin[t] else i;
        s' := if swap then s.(loser := s.loser[t := Q], origin := s.origin[t := i], win := s.win[t := i'])
          else s.(win := s.win[t := i]);
        Play(s, i0, first, t, c, d, Q, i, s', Q', i');
      }
    }
  }
}
