/** Algorithm S: cuts a list of vectors into slices whose vectors satisfy many common equations. */
module Slicer {
  import opened Words
  import opened Linear
  import opened Basis
  import opened Transpose
  import opened Echelon
  import opened Equations
  import opened Lists
  import opened Search
  import opened Completion
  import opened Numbers
  import opened Matrix
  import opened Slices

  /** The global variables of the slicer. */
  class Workspace {
    var active: Node
    var reject: Node
    var m: nat

    /** The nodes of the two lists, headers included. */
    ghost var act: seq<Node>
    ghost var rej: seq<Node>
    ghost var nodes: set<Node>

    ghost predicate Valid()
      reads this, nodes
    {
      // The condition is named so that the verifier does not split it.
      var linked :=
        && (forall n | n in act :: n in nodes && n !in rej)
        && (forall n | n in rej :: n in nodes)
        && Ring(act) && act[0] == active
        && Ring(rej) && rej[0] == reject;
      linked && m == |act| - 1 && rej != [] && active.x == {} && reject.x == {}
    }

    /** The active vectors, in the order in which the list is walked. */
    ghost function Active(): (vs: seq<Word>)
      requires act != []
      reads this
    {
      Vectors(act[1..])
    }

    ghost function Rejected(): (vs: seq<Word>)
      requires rej != []
      reads this
    {
      Vectors(rej[1..])
    }

    constructor ()
      ensures Valid() && fresh(nodes) && act == [active] && rej == [reject]
    {
      active := new Node({});
      reject := new Node({});
      m := 0;
      new;
      act, rej, nodes := [active], [reject], {active, reject};
    }

    /** Setup: all the vectors are active. Each is inserted at the head of the list. */
    method AddAll(L: seq<Word>)
      requires Valid() && Active() == []
      modifies this, nodes
      ensures unchanged(`active, `reject)
      ensures Valid() && fresh(nodes - old(nodes))
      ensures Active() == Reversed(L) && Rejected() == old(Rejected())
    {
      for i := 0 to |L|
        invariant unchanged(`active, `reject)
        invariant Valid() && fresh(nodes - old(nodes)) && rej == old(rej)
        invariant Active() == Reversed(L[..i])
      {
        Add(L[i]);
        assert L[..i + 1][..i] == L[..i];
      }
      assert L[..|L|] == L;
    }

    method Add(x: Word)
      requires Valid()
      modifies this, nodes
      ensures unchanged(`active, `reject)
      ensures Valid() && fresh(nodes - old(nodes)) && rej == old(rej)
      ensures Active() == [x] + old(Active())
    {
      var item := new Node(x);
      assert active.next in act;
      ListInsert(active, item, act);
      assert Ring(rej);
      act := [active, item] + act[1..];
      nodes := nodes + {item};
      m := m + 1;
      assert act[1..] == [item] + old(act)[1..];
    }

    /** Unlinks the p-th node of the active list. */
    method Unlink(item: Node, ghost p: nat)
      requires Valid() && 1 <= p < |act| && item == act[p]
      modifies this, nodes
      ensures unchanged(`active, `reject, `nodes, `rej)
      ensures Valid() && item in nodes && item !in act && item !in rej
      ensures act == old(act[..p] + act[p + 1..])
    {
      assert item.next in act && item.prev in act by {
        assert act[p].next == if p + 1 < |act| then act[p + 1] else act[0];
        assert act[p].prev == act[p - 1];
      }
      ListRemove(item, act, p);
      assert Ring(rej);
      ghost var act' := act[..p] + act[p + 1..];
      assert item !in act' by {
        assert forall i | 0 <= i < |act'| :: act'[i] == if i < p then act[i] else act[i + 1];
      }
      act := act';
      m := m - 1;
    }

    /** Links a free node at the head of the reject list. */
    method LinkRejected(item: Node)
      requires Valid() && item in nodes && item !in act && item !in rej
      modifies this, nodes
      ensures unchanged(`active, `reject, `nodes, `act, `m)
      ensures Valid()
      ensures rej == old([rej[0], item] + rej[1..])
    {
      assert reject.next in rej;
      ListInsert(reject, item, rej);
      assert Ring(act);
      rej := [rej[0], item] + rej[1..];
    }

    /** Moves the p-th node of the active list to the head of the reject list. */
    method Reject(item: Node, ghost p: nat)
      requires Valid() && 1 <= p < |act| && item == act[p]
      modifies this, nodes
      ensures unchanged(`active, `reject, `nodes)
      ensures Valid()
      ensures act == old(act[..p] + act[p + 1..]) && rej == old([rej[0], item] + rej[1..])
    {
      Unlink(item, p);
      LinkRejected(item);
    }

    /** Handles the p-th node of the active list: the body of the loop of filter_active. */
    method FilterStep(item: Node, eq: Word, ghost p: nat) returns (next: Node, ghost p': nat)
      requires Valid() && 1 <= p < |act| && item == act[p]
      modifies this, nodes
      ensures unchanged(`active, `reject, `nodes)
      ensures Valid() && 1 <= p' <= |act|
      ensures act[p'..] == old(act)[p + 1..]
      ensures act[1..p'] == old(act)[1..p] + if Satisfies(item.x, eq) then [item] else []
      ensures rej[1..] == (if Satisfies(item.x, eq) then [] else [item]) + old(rej)[1..]
      ensures next == if p' < |act| then act[p'] else active
    {
      next := item.next;      /* saved before it is modified */
      assert next == if p + 1 < |act| then act[p + 1] else act[0];
      if !Satisfies(item.x, eq) {
        Reject(item, p);
        p' := p;
        NodeRemoved(old(act), p, act);
        assert rej[1..] == [item] + old(rej)[1..];
      } else {
        p' := p + 1;
        OneMoreNode(act, p);
      }
    }

    /** The walk of filter_active stands at the p-th active node. The nodes todo are still to be
        handled, and the vectors done have been. */
    ghost predicate Filtering(item: Node, p: nat, done: seq<Word>, todo: seq<Node>, eq: Word, earlier: seq<Word>)
      reads this, nodes
    {
      && Valid() && 1 <= p <= |act| && act[p..] == todo
      && item == (if todo != [] then todo[0] else active)
      && Vectors(act[1..p]) == Satisfying(done, eq)
      && Rejected() == Reversed(Violating(done, eq)) + earlier
    }

    method FilterNode(item: Node, eq: Word, ghost p: nat, ghost done: seq<Word>, ghost todo: seq<Node>,
                      ghost earlier: seq<Word>)
      returns (next: Node, ghost p': nat)
      requires Filtering(item, p, done, todo, eq, earlier) && todo != []
      modifies this, nodes
      ensures unchanged(`active, `reject, `nodes)
      ensures Filtering(next, p', done + [item.x], todo[1..], eq, earlier)
    {
      next, p' := FilterStep(item, eq, p);
      NodeFiltered(item, eq, old(act)[1..p], act[1..p'], old(rej)[1..], rej[1..], done, earlier);
      assert old(act)[p + 1..] == todo[1..];
    }

    lemma FilteringStarts(eq: Word, earlier: seq<Word>)
      requires Valid() && earlier == Rejected()
      ensures Filtering(active.next, 1, [], act[1..], eq, earlier)
      ensures [] + Vectors(act[1..]) == Active()
    {
      assert Vectors(act[1..1]) == [];
      assert Reversed<Word>([]) + earlier == earlier;
    }

    lemma FilteringFacts(item: Node, p: nat, done: seq<Word>, todo: seq<Node>, eq: Word, earlier: seq<Word>)
      requires Filtering(item, p, done, todo, eq, earlier)
      ensures Valid() && act != [] && rej != [] && (item == active <==> todo == [])
      ensures todo == [] ==> done + Vectors(todo) == done && Active() == Satisfying(done, eq)
      ensures Rejected() == Reversed(Violating(done, eq)) + earlier
      ensures todo != [] ==> item == todo[0]
    {
      if todo == [] {
        assert p == |act| && act[1..p] == act[1..];
      } else {
        assert todo[0] in act[p..] && act[0] !in act[p..];
      }
    }

    /** Moves the vectors that violate the equation from the active to the reject list. */
    method FilterActive(eq: Word)
      requires Valid()
      modifies this, nodes
      ensures unchanged(`active, `reject, `nodes)
      ensures Valid()
      ensures Active() == Satisfying(old(Active()), eq)
      ensures Rejected() == Reversed(Violating(old(Active()), eq)) + old(Rejected())
    {
      ghost var vs, earlier := Active(), Rejected();
      ghost var done: seq<Word>, todo, p := [], act[1..], 1;
      var item := active.next;
      FilteringStarts(eq, earlier);
      FilteringFacts(item, p, done, todo, eq, earlier);
      while item != active
        invariant unchanged(`active, `reject, `nodes)
        invariant Filtering(item, p, done, todo, eq, earlier)
        invariant done + Vectors(todo) == vs
        invariant item == active <==> todo == []
        decreases |todo|
      {
        FilteringFacts(item, p, done, todo, eq, earlier);
        VectorsStep(done, todo);
        ghost var x := item.x;
        item, p := FilterNode(item, eq, p, done, todo, earlier);
        done, todo := done + [x], todo[1..];
        FilteringFacts(item, p, done, todo, eq, earlier);
      }
      FilteringFacts(item, p, done, todo, eq, earlier);
    }

    /** Copies the active vectors, padded with zeros to a multiple of 64. */
    method CopyActive() returns (M: array<Word>)
      requires Valid()
      ensures fresh(M) && M.Length == 64 * WordsFor(m) && Padded(M[..], m) && M[..m] == Active()
    {
      var rows := 64 * WordsFor(m);
      M := new Word[rows](_ => {});
      var i := 0;
      var item := active.next;
      while item != active
        invariant i <= m && item == if i < m then act[i + 1] else active
        invariant forall c | 0 <= c < i :: M[c] == act[c + 1].x
        decreases m - i
      {
        M[i] := item.x;
        i := i + 1;
        item := item.next;
      }
      while i < rows
        invariant m <= i <= rows
        invariant forall c | 0 <= c < m :: M[c] == act[c + 1].x
        invariant forall c | m <= c < i :: M[c] == {}
      {
        M[i] := {};
        i := i + 1;
      }
    }

    /** Rejects the vectors that violate an equation found among the active vectors: the rank drops by one, and
        at least d - 1 vectors stay. */
    method FilterBy(equation: Word, ghost d: nat, ghost weight: nat)
      requires Valid() && 1 <= d <= m
      requires RankAtMost(ToSet(Active()), d) && IsEquationOfWeight(Active(), d, equation, weight)
      modifies this, nodes
      ensures unchanged(`active, `reject, `nodes)
      ensures Valid() && m == old(m) - weight && m >= d - 1
      ensures HasRank(ToSet(Active()), d - 1)
      ensures Active() == Satisfying(old(Active()), equation)
      ensures multiset(Active()) + multiset(Rejected()) == old(multiset(Active()) + multiset(Rejected()))
    {
      FilterProgress(Active(), equation, weight, d);
      RejectionConserves(Active(), equation, Rejected());
      FilterActive(equation);
    }

    /** Finds one more equation among the active vectors, and keeps only those that satisfy it. */
    method Narrow(M: array<Word>, equations: array<Word>, k: nat)
      requires Valid() && k <= 62 && 64 - k <= m && equations.Length == 64 && M != equations
      requires M.Length == 64 * WordsFor(m) && Padded(M[..], m) && M[..m] == Active()
      requires Determined(Active(), equations[..], k)
      modifies this, nodes, equations, M
      ensures unchanged(`active, `reject, `nodes)
      ensures Valid() && 63 - k <= m <= old(m) && Determined(Active(), equations[..], k + 1)
      ensures multiset(Active()) + multiset(Rejected()) == old(multiset(Active()) + multiset(Rejected()))
    {
      var equation;
      ghost var weight;
      ghost var vs, held := Active(), equations[..];
      equation, weight := PickEquation(M, m, 64 - k, vs);
      equations[k] := equation;
      FilterBy(equation, 64 - k, weight);
      OneMoreEquation(vs, held, equation, weight, k);
    }

    /** Copies the active vectors, and looks for equations that all of them satisfy. There are none but those held,
        except possibly at the start. */
    method FindDefect(equations: array<Word>, k: nat) returns (M: array<Word>, k': nat)
      requires Valid() && m > 0 && k <= 64 == equations.Length
      requires k == 0 || Determined(Active(), equations[..], k)
      modifies equations
      ensures fresh(M) && M.Length == 64 * WordsFor(m) && Padded(M[..], m) && M[..m] == Active()
      ensures k <= k' <= 64 && 64 - k' <= m && (k > 0 ==> k' == k)
      ensures Determined(Active(), equations[..], k')
    {
      M := CopyActive();
      RankAtMost64(ToSet(Active()));
      ghost var held := equations[..k];
      k' := CheckRankDefect(M, m, equations, k);
      assert k > 0 ==> equations[..k'] == held;
    }

    /** One round of slice_it: either a rank defect brings the number k of equations to l, or one more
        equation is found and the vectors that violate it are rejected. Only the first round can meet a rank
        defect. */
    method Round(l: nat, equations: array<Word>, k: nat) returns (k': nat)
      requires Valid() && k < l <= 63 && m > 0 && equations.Length == 64
      requires k == 0 || Determined(Active(), equations[..], k)
      modifies this, nodes, equations
      ensures unchanged(`active, `reject, `nodes)
      ensures Valid() && m <= old(m) && k < k' <= 64 && (k > 0 ==> k' == k + 1)
      ensures Determined(Active(), equations[..], k')
      ensures multiset(Active()) + multiset(Rejected()) == old(multiset(Active()) + multiset(Rejected()))
      ensures (k' >= l && m == old(m) && Rejected() == old(Rejected())) || (k' <= l && m >= 64 - k')
    {
      var M;
      M, k' := FindDefect(equations, k);
      if k' < l {
        Narrow(M, equations, k');
        k' := k' + 1;
      }
    }

    /** slice_it: finds at least l independent equations that all the vectors left active satisfy, and all the
        equations that these satisfy follow from them. Either no vector is rejected or at least 64 - l of them
        stay active. */
    method SliceIt(l: nat, equations: array<Word>) returns (k: nat)
      requires Valid() && 1 <= l <= 63 && m > 0 && equations.Length == 64
      modifies this, nodes, equations
      ensures unchanged(`active, `reject, `nodes)
      ensures Valid() && 0 < m <= old(m) && l <= k <= 64
      ensures Determined(Active(), equations[..], k)
      ensures multiset(Active()) + multiset(Rejected()) == old(multiset(Active()) + multiset(Rejected()))
      ensures (m == old(m) && Rejected() == old(Rejected())) || (k == l && m >= 64 - l)
    {
      k := 0;
      while k < l
        invariant unchanged(`active, `reject, `nodes)
        invariant Valid() && k <= 64 && 0 < m <= old(m) && (k == 0 || Determined(Active(), equations[..], k))
        invariant multiset(Active()) + multiset(Rejected()) == old(multiset(Active()) + multiset(Rejected()))
        invariant (m == old(m) && Rejected() == old(Rejected())) || (0 < k <= l && m >= 64 - k)
        decreases l - k
      {
        k := Round(l, equations, k);
      }
    }

    /** Writes the active vectors, multiplied by M, after the header of their slice. */
    method EmitVectors(out: array<Word>, at: nat, M: array<Word>)
      requires Valid() && at + m <= out.Length && M.Length == 64 && out != M
      modifies out
      ensures out[..at] == old(out[..at])
      ensures out[at..at + m] == Images(Active(), M[..])
    {
      assert M[0..64] == M[..];
      var i := 0;
      var item := active.next;
      while item != active
        invariant i <= m && item == if i < m then act[i + 1] else active
        invariant M[0..64] == M[..]
        invariant forall c | 0 <= c < at :: out[c] == old(out[c])
        invariant forall c | at <= c < at + i :: out[c] == Gemv(act[c - at + 1].x, M[..])
        decreases m - i
      {
        out[at + i] := NaiveGemv(item.x, M, 0);
        i := i + 1;
        item := item.next;
      }
    }

    /** Makes room for the next pass: the slice is discarded and the rejected vectors become active. */
    method NextPass(n: nat)
      requires Valid() && n == |Rejected()|
      modifies this, nodes
      ensures unchanged(`nodes) && Valid()
      ensures Active() == old(Rejected()) && Rejected() == []
    {
      assert act[0] in act && act[0] !in rej;
      var tmp := active;
      active := reject;
      reject := tmp;
      ListClear(reject);
      assert Ring(rej);
      act, rej := rej, [reject];
      m := n;
    }

    /** Computes the matrices of a slice. The lists are left alone. */
    method MakeMatrices(equations: array<Word>, k: nat, rand: (nat, nat) -> Word, M: array<Word>, Minv: array<Word>)
      returns (ok: bool)
      requires Valid() && equations.Length == M.Length == Minv.Length == 64 && k <= 64
      requires M != Minv && M != equations && Minv != equations
      modifies M, Minv
      ensures ok ==> Inverses(M[..], Minv[..])
      ensures ok ==> forall i, r | 0 <= i < k && 0 <= r < 64 :: 64 - k + i in M[r] <==> r in equations[i]
      ensures ok <==> !AllTrialsFail(equations[..], k, rand)
    {
      ok := PadToInvertible(equations, k, rand, M, Minv);
    }

    /** Appends the slice of the active vectors to the output, of which `at` words are used. */
    method EmitSlice(out: array<Word>, at: nat, M: array<Word>, Minv: array<Word>, l: nat) returns (ghost s: Slice)
      requires Valid() && at + HEADER + m <= out.Length && M.Length == Minv.Length == 64 && out != M && out != Minv
      requires m < TWO_64 && l < TWO_64
      modifies out
      ensures s == Slice(M[..], Minv[..], l, Images(Active(), M[..])) && Fits(s)
      ensures out[..at + HEADER + m] == old(out[..at]) + SliceWords(s)
    {
      ghost var start, images := out[..at], Images(Active(), M[..]);
      s := Slice(M[..], Minv[..], l, images);
      EmitHeader(out, at, M, Minv, m, l);
      ghost var begun := out[..];
      EmitVectors(out, at + HEADER, M);
      ThreeParts(begun, out[..], at, at + HEADER, at + HEADER + m, start, s);
    }
  }

  /** The vectors satisfy k independent equations, and their rank is what these leave. */
  ghost predicate Determined(vs: seq<Word>, equations: seq<Word>, k: nat) {
    // The condition is named so that the verifier does not split it.
    k <= 64 == |equations|
    && var determined :=
         && HasRank(ToSet(vs), 64 - k) && !Dependent(equations[..k])
         && forall i | 0 <= i < k :: AllSatisfy(vs, equations[i]);
       determined
  }

  lemma SomeoneViolates(vs: seq<Word>, equation: Word)
    requires Violating(vs, equation) != []
    ensures !AllSatisfy(vs, equation)
  {
    if AllSatisfy(vs, equation) {
      NoneViolating(vs, equation);
    }
  }

  /** An equation that some vector violates is independent of equations that all of them satisfy. */
  lemma OneMoreIndependent(vs: seq<Word>, equations: seq<Word>, equation: Word)
    requires !Dependent(equations) && (forall i | 0 <= i < |equations| :: AllSatisfy(vs, equations[i]))
    requires !AllSatisfy(vs, equation)
    ensures !Dependent(equations + [equation])
  {
    var v :| v in vs && !Satisfies(v, equation);
    forall e | e in equations
      ensures !Dot(v, e)
    {
      var i :| 0 <= i < |equations| && equations[i] == e;
      assert AllSatisfy(vs, equations[i]);
      DotSymmetric(v, e);
    }
    DotSymmetric(v, equation);
    ViolatorIsIndependent(v, equations, equation);
  }

  lemma OneMoreEquation(vs: seq<Word>, held: seq<Word>, equation: Word, weight: nat, k: nat)
    requires k < 64 && 64 - k <= |vs| && Determined(vs, held, k) && IsEquationOfWeight(vs, 64 - k, equation, weight)
    ensures Determined(Satisfying(vs, equation), held[k := equation], k + 1)
  {
    FilterProgress(vs, equation, weight, 64 - k);
    SomeoneViolates(vs, equation);
    KeptSatisfy(vs, equation, held[..k]);
    OneMoreIndependent(vs, held[..k], equation);
    assert held[k := equation][..k + 1] == held[..k] + [equation];
  }

  lemma NodeRemoved(ring: seq<Node>, p: nat, ring': seq<Node>)
    requires 1 <= p < |ring| && ring' == ring[..p] + ring[p + 1..]
    ensures ring'[1..p] == ring[1..p] && ring'[p..] == ring[p + 1..] && ring'[0] == ring[0]
    ensures forall i | p <= i < |ring'| :: ring'[i] == ring[i + 1]
  {
  }

  lemma OneMoreNode(ring: seq<Node>, p: nat)
    requires 1 <= p < |ring|
    ensures ring[1..p + 1] == ring[1..p] + [ring[p]] && ring[p + 1..] == ring[p..][1..]
  {
  }

  lemma ThreeParts(begun: seq<Word>, o: seq<Word>, a: nat, b: nat, c: nat, start: seq<Word>, s: Slice)
    requires a <= b <= c <= |o| == |begun| && o[..b] == begun[..b] && Fits(s)
    requires begun[..a] == start && begun[a..b] == s.M + s.Minv + [WordOf(|s.CM|), WordOf(s.l)] && o[b..c] == s.CM
    ensures o[..c] == start + SliceWords(s)
  {
  }

  lemma RejectionConserves(vs: seq<Word>, equation: Word, earlier: seq<Word>)
    ensures multiset(Satisfying(vs, equation)) + multiset(Reversed(Violating(vs, equation)) + earlier) == multiset(vs)
      + multiset(earlier)
  {
    FilterConserves(vs, equation);
    assert multiset(Reversed(Violating(vs, equation)) + earlier) == multiset(Violating(vs, equation))
      + multiset(earlier);
  }

  lemma KeptSatisfy(vs: seq<Word>, equation: Word, equations: seq<Word>)
    requires forall i | 0 <= i < |equations| :: AllSatisfy(vs, equations[i])
    ensures AllSatisfy(Satisfying(vs, equation), equation)
    ensures forall i | 0 <= i < |equations| :: AllSatisfy(Satisfying(vs, equation), equations[i])
  {
    SatisfyingMembers(vs, equation);
  }

  lemma VectorsSplit(a: seq<Node>, b: seq<Node>)
    ensures Vectors(a + b) == Vectors(a) + Vectors(b)
  {}

  lemma VectorsStep(done: seq<Word>, todo: seq<Node>)
    requires todo != []
    ensures (done + [todo[0].x]) + Vectors(todo[1..]) == done + Vectors(todo)
  {
    assert Vectors(todo) == [todo[0].x] + Vectors(todo[1..]);
    Associative(done, [todo[0].x], Vectors(todo[1..]));
  }

  lemma NodeFiltered(item: Node, eq: Word, kept: seq<Node>, kept': seq<Node>, out: seq<Node>, out': seq<Node>,
                     done: seq<Word>, earlier: seq<Word>)
    requires kept' == kept + if Satisfies(item.x, eq) then [item] else []
    requires out' == (if Satisfies(item.x, eq) then [] else [item]) + out
    requires Vectors(kept) == Satisfying(done, eq) && Vectors(out) == Reversed(Violating(done, eq)) + earlier
    ensures Vectors(kept') == Satisfying(done + [item.x], eq)
    ensures Vectors(out') == Reversed(Violating(done + [item.x], eq)) + earlier
  {
    FilterNext(done, item.x, eq, earlier);
    VectorsSplit(kept, [item]);
    VectorsSplit([item], out);
    assert Vectors([item]) == [item.x];
    if Satisfies(item.x, eq) {
      assert kept' == kept + [item] && out' == out;
      assert [] + Vectors(out) == Vectors(out);
    } else {
      assert kept' == kept && out' == [item] + out;
      assert Satisfying(done, eq) + [] == Satisfying(done, eq);
    }
  }

  lemma FilterNext(done: seq<Word>, x: Word, eq: Word, earlier: seq<Word>)
    ensures Satisfying(done + [x], eq) == Satisfying(done, eq) + if Satisfies(x, eq) then [x] else []
    ensures Reversed(Violating(done + [x], eq)) + earlier
         == (if Satisfies(x, eq) then [] else [x]) + (Reversed(Violating(done, eq)) + earlier)
  {
    assert (done + [x])[..|done|] == done;
    var v := Violating(done, eq);
    if Satisfies(x, eq) {
      assert Violating(done + [x], eq) == v;
      assert [] + (Reversed(v) + earlier) == Reversed(v) + earlier;
    } else {
      assert (v + [x])[..|v|] == v;
      assert Reversed(v + [x]) == [x] + Reversed(v);
      Associative([x], Reversed(v), earlier);
    }
  }

  /** The first n random words of trial t. */
  ghost function Drawn(rand: (nat, nat) -> Word, t: nat, n: nat): (draws: seq<Word>) {
    seq(n, i requires 0 <= i < n => rand(t, i))
  }

  /** The matrix of trial t, transposed: random rows, and then the equations. */
  ghost function TrialRows(equations: seq<Word>, k: nat, rand: (nat, nat) -> Word, t: nat): (T: seq<Word>)
    requires k <= 64 == |equations|
    ensures |T| == 64
  {
    Drawn(rand, t, 64 - k) + equations[..k]
  }

  /** M is the matrix of trial t. */
  ghost predicate IsTrial(equations: seq<Word>, k: nat, rand: (nat, nat) -> Word, t: nat, M: seq<Word>)
    requires k <= 64 == |equations|
  {
    Transposed(TrialRows(equations, k, rand, t), M)
  }

  /** Trial t yields a singular matrix. */
  ghost predicate TrialFails(equations: seq<Word>, k: nat, rand: (nat, nat) -> Word, t: nat)
    requires k <= 64 == |equations|
  {
    Dependent(TrialRows(equations, k, rand, t))
  }

  const MAX_TRIALS: nat := 1000

  ghost predicate AllTrialsFail(equations: seq<Word>, k: nat, rand: (nat, nat) -> Word)
    requires k <= 64 == |equations|
  {
    forall t: nat | t < MAX_TRIALS :: TrialFails(equations, k, rand, t)
  }

  lemma TrialColumns(equations: seq<Word>, k: nat, rand: (nat, nat) -> Word, t: nat, M: seq<Word>)
    requires k <= 64 == |equations| && IsTrial(equations, k, rand, t, M)
    ensures forall i, r | 0 <= i < k && 0 <= r < 64 :: 64 - k + i in M[r] <==> r in equations[i]
  {
    var T := TrialRows(equations, k, rand, t);
    forall i, r | 0 <= i < k && 0 <= r < 64
      ensures 64 - k + i in M[r] <==> r in equations[i]
    {
      assert T[64 - k + i] == equations[i];
    }
  }

  /** One trial: the equations are padded with random rows and transposed. */
  method MakeTrial(equations: array<Word>, k: nat, rand: (nat, nat) -> Word, t: nat, M: array<Word>)
    requires equations.Length == M.Length == 64 && k <= 64 && M != equations
    modifies M
    ensures IsTrial(equations[..], k, rand, t, M[..])
  {
    var T := new Word[64](_ => {});
    for i := 0 to 64 - k
      invariant forall c | 0 <= c < i :: T[c] == rand(t, c)
    {
      T[i] := rand(t, i);
    }
    for i := 0 to k
      invariant forall c | 0 <= c < 64 - k :: T[c] == rand(t, c)
      invariant forall c | 0 <= c < i :: T[64 - k + c] == equations[c]
    {
      T[64 - k + i] := equations[i];
    }
    Transpose64(T, 0, M);
    assert T[0..64] == TrialRows(equations[..], k, rand, t);
  }

  /** Pads the k equations with random rows, again and again, until the matrix whose columns they are is invertible, or
      1000 trials have failed. */
  method PadToInvertible(equations: array<Word>, k: nat, rand: (nat, nat) -> Word, M: array<Word>, Minv: array<Word>)
    returns (ok: bool)
    requires equations.Length == M.Length == Minv.Length == 64 && k <= 64
    requires M != Minv && M != equations && Minv != equations
    modifies M, Minv
    ensures ok ==> Inverses(M[..], Minv[..])
    ensures ok ==> forall i, r | 0 <= i < k && 0 <= r < 64 :: 64 - k + i in M[r] <==> r in equations[i]
    ensures ok <==> !AllTrialsFail(equations[..], k, rand)
  {
    ghost var eqs := equations[..];
    ok := false;
    var trials := 0;
    while !ok
      invariant trials <= MAX_TRIALS && eqs == equations[..]
      invariant ok ==> Inverses(M[..], Minv[..])
      invariant ok ==> forall i, r | 0 <= i < k && 0 <= r < 64 :: 64 - k + i in M[r] <==> r in eqs[i]
      invariant !ok ==> forall t: nat | t < trials :: TrialFails(eqs, k, rand, t)
      invariant ok ==> !AllTrialsFail(eqs, k, rand)
      decreases MAX_TRIALS + 1 - trials, !ok
    {
      MakeTrial(equations, k, rand, trials, M);
      TrialColumns(eqs, k, rand, trials, M[..]);
      TransposeSingular(TrialRows(eqs, k, rand, trials), M[..]);
      ok := Invert(M, Minv);
      assert ok <==> !TrialFails(eqs, k, rand, trials);
      trials := trials + 1;
      if trials > 1000 {
        return false;
      }
    }
  }

  method EmitHeader(out: array<Word>, at: nat, M: array<Word>, Minv: array<Word>, n: nat, l: nat)
    requires at + HEADER <= out.Length && M.Length == Minv.Length == 64 && out != M && out != Minv
    requires n < TWO_64 && l < TWO_64
    modifies out
    ensures out[..at] == old(out[..at])
    ensures out[at..at + HEADER] == M[..] + Minv[..] + [WordOf(n), WordOf(l)]
  {
    for i := 0 to 64
      invariant forall c | 0 <= c < at :: out[c] == old(out[c])
      invariant forall c | 0 <= c < i :: out[at + c] == M[c] && out[at + 64 + c] == Minv[c]
    {
      out[at + i] := M[i];
      out[at + 64 + i] := Minv[i];
    }
    out[at + 128] := WordOf(n);
    out[at + 129] := WordOf(l);
    HeaderParts(out[..], at, M[..], Minv[..], WordOf(n), WordOf(l));
  }

  lemma HeaderParts(o: seq<Word>, at: nat, M: seq<Word>, Minv: seq<Word>, n: Word, l: Word)
    requires at + HEADER <= |o| && |M| == |Minv| == 64 && o[at + 128] == n && o[at + 129] == l
    requires forall c | 0 <= c < 64 :: o[at + c] == M[c] && o[at + 64 + c] == Minv[c]
    ensures o[at..at + HEADER] == M + Minv + [n, l]
  {
  }
}
