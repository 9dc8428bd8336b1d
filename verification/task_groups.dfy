/** Task groups: which lists a task reads, and which tasks a job does. */
module TaskGroups {
  import opened Words
  import opened Numbers
  import opened Subjoin
  import opened XorArithmetic

  /** struct tg_context_t */
  datatype Context = Context(taskGridSize: nat, cpuGridSize: nat, perCoreGridSize: nat, tgPerJob: nat, cpuI: nat,
    cpuJ: nat)

  /** tg_task_base */
  method TaskBase(ctx: Context, i: nat, j: nat, base: array<nat>)
    requires base.Length == 3
    modifies base
    ensures base[0] == i * ctx.cpuGridSize + ctx.cpuI && base[1] == j * ctx.cpuGridSize + ctx.cpuJ
      && base[2] == XorU32(base[0], base[1])
  {
    base[0] := i * ctx.cpuGridSize + ctx.cpuI;
    base[1] := j * ctx.cpuGridSize + ctx.cpuJ;
    base[2] := XorU32(base[0], base[1]);
  }

  /** tg_task_idx */
  method TaskIdx(ctx: Context, i: nat, j: nat, taskI: nat, taskJ: nat, idx: array<nat>)
    requires idx.Length == 3
    modifies idx
    ensures idx[0] == (i * ctx.cpuGridSize + ctx.cpuI) * ctx.perCoreGridSize + taskI
    ensures idx[1] == (j * ctx.cpuGridSize + ctx.cpuJ) * ctx.perCoreGridSize + taskJ
    ensures idx[2] == XorU32(idx[0], idx[1])
  {
    TaskBase(ctx, i, j, idx);
    idx[0] := idx[0] * ctx.perCoreGridSize + taskI;
    idx[1] := idx[1] * ctx.perCoreGridSize + taskJ;
    idx[2] := XorU32(idx[0], idx[1]);
  }

  // The third list of task (r, s) of a group is number r ^ s of the lists of the group.

  /** Every r ^ s is the number of a list. */
  ghost predicate ClosedUnderXor(G: nat) {
    forall r: nat, s: nat | r < G && s < G :: XorU32(r, s) < G
  }

  ghost predicate IsPowerOfTwo(G: nat) {
    exists q: nat :: G == Pow2(q)
  }

  lemma {:induction false} NextPower(G: nat, n: nat) returns (k: nat)
    requires 0 < G <= Pow2(n)
    ensures Pow2(k) <= G && (G == Pow2(k) || (k < n && G < Pow2(k + 1)))
  {
    if n == 0 || G == Pow2(n) {
      k := n;
    } else if G >= Pow2(n - 1) {
      k := n - 1;
    } else {
      k := NextPower(G, n - 1);
    }
  }

  /** Reading list r ^ s stays within the group for all r and s exactly when the size of the group is a power of two. */
  lemma XorStaysInGroup(G: nat)
    requires 0 < G <= Pow2(32)
    ensures ClosedUnderXor(G) <==> IsPowerOfTwo(G)
  {
    var k := NextPower(G, 32);
    if G != Pow2(k) {
      var p := Pow2(k);
      NeighboursLeave(G, k, p);
      assert p < G && p - 1 < G && XorU32(p, p - 1) >= G;
      NotAPower(G, k);
    } else {
      Fits32(k);
      forall r: nat, s: nat | r < G && s < G
        ensures XorU32(r, s) < G
      {
        XorBits(r, s, k);
      }
    }
  }

  lemma NeighboursLeave(G: nat, k: nat, p: nat)
    requires k < 32 && p == Pow2(k) && G < Pow2(k + 1)
    ensures XorU32(p, p - 1) >= G
  {
    XorOfNeighbours(k, p);
  }

  lemma Fits32(k: nat)
    requires Pow2(k) <= Pow2(32)
    ensures k <= 32
  {
    if k > 32 {
      Pow2Monotone(33, k);
    }
  }

  lemma NotAPower(G: nat, k: nat)
    requires Pow2(k) < G < Pow2(k + 1)
    ensures !IsPowerOfTwo(G)
  {
    if q: nat :| G == Pow2(q) {
      if q <= k {
        Pow2Monotone(q, k);
      } else {
        Pow2Monotone(k + 1, q);
      }
    }
  }

  // The files of a group: a table of offsets, and the lists.

  /** What the reader needs: the number of lists, and between consecutive offsets, the lists. */
  ghost predicate Grouped(A: seq<Word>, lists: seq<seq<Word>>) {
    && |A| >= |lists| + 2 && NumberOf(A[0], 64) == |lists|
    && forall r | 0 <= r < |lists| :: ListAt(A, r, lists[r])
  }

  ghost predicate ListAt(A: seq<Word>, r: nat, list: seq<Word>)
    requires r + 2 < |A|
  {
    var lo, hi := NumberOf(A[r + 1], 64), NumberOf(A[r + 2], 64);
    lo <= hi <= |A| && A[lo..hi] == list
  }

  ghost function Total(lists: seq<seq<Word>>): (n: nat) {
    if lists == [] then 0 else Total(lists[..|lists| - 1]) + |lists[|lists| - 1]|
  }

  /** The lists, one after another. */
  ghost function Flat(lists: seq<seq<Word>>): (ws: seq<Word>)
    ensures |ws| == Total(lists)
  {
    if lists == [] then [] else Flat(lists[..|lists| - 1]) + lists[|lists| - 1]
  }

  lemma {:induction false} FlatPart(lists: seq<seq<Word>>, r: nat)
    requires r < |lists|
    ensures Total(lists[..r]) + |lists[r]| == Total(lists[..r + 1]) <= Total(lists)
    ensures Flat(lists)[Total(lists[..r])..Total(lists[..r + 1])] == lists[r]
  {
    var n := |lists| - 1;
    assert lists[..r + 1][..r] == lists[..r];
    if r == n {
      assert lists[..r + 1] == lists;
    } else {
      FlatPart(lists[..n], r);
      assert lists[..n][..r] == lists[..r] && lists[..n][..r + 1] == lists[..r + 1];
      assert Flat(lists)[Total(lists[..r])..Total(lists[..r + 1])]
        == Flat(lists[..n])[Total(lists[..r])..Total(lists[..r + 1])];
    }
  }

  /** The table of offsets: entry r + 1 is where list r starts, and the last entry is the end of the last list. */
  ghost predicate Offsets(prefix: seq<Word>, lists: seq<seq<Word>>, r: nat)
    requires r <= |lists|
  {
    && |prefix| == r + 1 && NumberOf(prefix[0], 64) == |lists|
    && forall i | 0 <= i < r :: NumberOf(prefix[i + 1], 64) == 2 + |lists| + Total(lists[..i])
  }

  lemma OffsetsPush(prefix: seq<Word>, lists: seq<seq<Word>>, r: nat, s: nat)
    requires r <= |lists| && Offsets(prefix, lists, r) && s == 2 + |lists| + Total(lists[..r]) && s < TWO_64
    ensures |prefix + [WordOf(s)]| == r + 2 && NumberOf((prefix + [WordOf(s)])[0], 64) == |lists|
    ensures forall i | 0 <= i <= r :: NumberOf((prefix + [WordOf(s)])[i + 1], 64) == 2 + |lists| + Total(lists[..i])
  {
    NumberOfWord(s);
    var longer := prefix + [WordOf(s)];
    forall i | 0 <= i <= r
      ensures NumberOf(longer[i + 1], 64) == 2 + |lists| + Total(lists[..i])
    {
      if i < r {
        assert longer[i + 1] == prefix[i + 1];
      }
    }
  }

  lemma ShiftedPart(prefix: seq<Word>, flat: seq<Word>, lo: nat, hi: nat)
    requires lo <= hi <= |flat|
    ensures |prefix| + hi <= |prefix + flat| && (prefix + flat)[|prefix| + lo..|prefix| + hi] == flat[lo..hi]
  {
  }

  /** The table of offsets, complete. */
  ghost predicate AllOffsets(prefix: seq<Word>, lists: seq<seq<Word>>) {
    && |prefix| == |lists| + 2 && NumberOf(prefix[0], 64) == |lists|
    && forall i | 0 <= i <= |lists| :: NumberOf(prefix[i + 1], 64) == 2 + |lists| + Total(lists[..i])
  }

  lemma OffsetIsRight(prefix: seq<Word>, lists: seq<seq<Word>>, r: nat)
    requires AllOffsets(prefix, lists) && r < |lists|
    ensures ListAt(prefix + Flat(lists), r, lists[r])
  {
    FlatPart(lists, r);
    var A := prefix + Flat(lists);
    assert A[r + 1] == prefix[r + 1] && A[r + 2] == prefix[r + 2];
    ShiftedPart(prefix, Flat(lists), Total(lists[..r]), Total(lists[..r + 1]));
  }

  lemma OffsetsAreGrouped(prefix: seq<Word>, lists: seq<seq<Word>>)
    requires AllOffsets(prefix, lists)
    ensures Grouped(prefix + Flat(lists), lists)
  {
    assert (prefix + Flat(lists))[0] == prefix[0];
    forall r | 0 <= r < |lists|
      ensures ListAt(prefix + Flat(lists), r, lists[r])
    {
      OffsetIsRight(prefix, lists, r);
    }
  }

  lemma {:induction false} TotalMonotone(lists: seq<seq<Word>>, r: nat)
    requires r <= |lists|
    ensures Total(lists[..r]) <= Total(lists)
    decreases |lists| - r
  {
    if r < |lists| {
      FlatPart(lists, r);
    } else {
      assert lists[..r] == lists;
    }
  }

  lemma NextTotal(lists: seq<seq<Word>>, r: nat)
    requires r < |lists|
    ensures Total(lists[..r + 1]) == Total(lists[..r]) + |lists[r]|
  {
    FlatPart(lists, r);
  }

  /** grouper.py: the table of offsets of the lists. */
  method WritePrefix(lists: seq<seq<Word>>) returns (prefix: seq<Word>)
    requires 2 + |lists| + Total(lists) < TWO_64
    ensures AllOffsets(prefix, lists)
  {
    NumberOfWord(|lists|);
    prefix := [WordOf(|lists|)];
    var s := 2 + |lists|;
    for r := 0 to |lists|
      invariant Offsets(prefix, lists, r) && s == 2 + |lists| + Total(lists[..r])
    {
      TotalMonotone(lists, r);
      OffsetsPush(prefix, lists, r, s);
      prefix := prefix + [WordOf(s)];
      NextTotal(lists, r);
      s := s + |lists[r]|;
    }
    TotalMonotone(lists, |lists|);
    OffsetsPush(prefix, lists, |lists|, s);
    prefix := prefix + [WordOf(s)];
  }

  /** grouper.py: the file of a group. */
  method WriteGroup(lists: seq<seq<Word>>) returns (file: seq<Word>)
    requires 2 + |lists| + Total(lists) < TWO_64
    ensures Grouped(file, lists)
    ensures |file| == 2 + |lists| + Total(lists)
    ensures AllOffsets(file[..2 + |lists|], lists) && file[2 + |lists|..] == Flat(lists)
  {
    file := WritePrefix(lists);
    ghost var prefix := file;
    for r := 0 to |lists|
      invariant file == prefix + Flat(lists[..r])
    {
      assert lists[..r + 1][..r] == lists[..r];
      file := file + lists[r];
    }
    assert lists[..|lists|] == lists;
    OffsetsAreGrouped(prefix, lists);
  }

  /** struct jtask_t, the lists of one task. */
  datatype Lists = Lists(first: Window, second: Window, third: Window)

  /** The window holds the list. */
  ghost predicate Shows(A: seq<Word>, w: Window, list: seq<Word>) {
    w.lo + w.n <= |A| && A[w.lo..w.lo + w.n] == list
  }

  /** load_tg_data, for one file: the windows of its lists. It fails if the file is for a group of another size. */
  method LoadWindows(A: array<Word>, G: nat, ghost lists: seq<seq<Word>>) returns (ok: bool, ws: seq<Window>)
    requires Grouped(A[..], lists)
    ensures ok <==> |lists| == G
    ensures ok ==> |ws| == G && forall r | 0 <= r < G :: Shows(A[..], ws[r], lists[r])
  {
    ws := [];
    ok := NumberOf(A[0], 64) == G;
    if ok {
      for r := 0 to G
        invariant |ws| == r && forall i | 0 <= i < r :: Shows(A[..], ws[i], lists[i])
      {
        assert ListAt(A[..], r, lists[r]);
        var lo, hi := NumberOf(A[r + 1], 64), NumberOf(A[r + 2], 64);
        ws := ws + [Window(lo, hi - lo)];
      }
    }
  }

  /** The lists of a group are those with consecutive numbers from b * G on. */
  ghost predicate IsGroup(lists: seq<seq<Word>>, all: seq<seq<Word>>, b: nat, G: nat) {
    |lists| == G && b * G + G <= |all| && lists == all[b * G..b * G + G]
  }

  lemma GroupMember(lists: seq<seq<Word>>, all: seq<seq<Word>>, b: nat, G: nat, r: nat, x: nat)
    requires IsGroup(lists, all, b, G) && r < G && x == b * G + r
    ensures x < |all| && lists[r] == all[x]
  {
  }

  /** One task: its index in each of the three families of lists, and where its lists are. */
  datatype Task = Task(i: nat, j: nat, k: nat, lists: Lists)

  /** The task joins list i of the first family with list j of the second one, for the third list number i ^ j. */
  ghost predicate TaskOk(t: Task, A: seq<Word>, B: seq<Word>, C: seq<Word>,
                         first: seq<seq<Word>>, second: seq<seq<Word>>, third: seq<seq<Word>>) {
    && t.k == XorU32(t.i, t.j) && t.i < |first| && t.j < |second| && t.k < |third|
    && Shows(A, t.lists.first, first[t.i]) && Shows(B, t.lists.second, second[t.j])
      && Shows(C, t.lists.third, third[t.k])
  }

  /** Three files of the same group, as load_tg_data has found them. */
  ghost predicate Loaded(A: seq<Word>, B: seq<Word>, C: seq<Word>, wa: seq<Window>, wb: seq<Window>, wc: seq<Window>,
                         la: seq<seq<Word>>, lb: seq<seq<Word>>, lc: seq<seq<Word>>, G: nat) {
    && |wa| == |wb| == |wc| == |la| == |lb| == |lc| == G
    && forall r | 0 <= r < G :: Shows(A, wa[r], la[r]) && Shows(B, wb[r], lb[r]) && Shows(C, wc[r], lc[r])
  }

  /** If the group has 2^q lists, the task (r, s) of the group finds its third list at r ^ s. */
  lemma TaskIsRight(A: seq<Word>, B: seq<Word>, C: seq<Word>, wa: seq<Window>, wb: seq<Window>, wc: seq<Window>,
                    la: seq<seq<Word>>, lb: seq<seq<Word>>, lc: seq<seq<Word>>, first: seq<seq<Word>>,
                    second: seq<seq<Word>>, third: seq<seq<Word>>,
                    a: nat, b: nat, k: nat, r: nat, s: nat, q: nat, G: nat, x: nat, y: nat)
    requires a < Pow2(k) && b < Pow2(k) && k + q <= 32 && r < G && s < G && G == Pow2(q) && x == a * G + r
      && y == b * G + s
    requires Loaded(A, B, C, wa, wb, wc, la, lb, lc, G)
    requires IsGroup(la, first, a, G) && IsGroup(lb, second, b, G) && IsGroup(lc, third, XorU32(a, b), G)
    ensures XorU32(r, s) < G && TaskOk(Task(x, y, XorU32(x, y), Lists(wa[r], wb[s], wc[XorU32(r, s)])), A, B, C, first,
      second, third)
  {
    MixedRadix(a, b, k, r, s, q, x, y);
    GroupMember(la, first, a, G, r, x);
    GroupMember(lb, second, b, G, s, y);
    GroupMember(lc, third, XorU32(a, b), G, XorU32(r, s), XorU32(x, y));
  }

  /** Three files of one task group of 2^q lists have been loaded: the group (i, j), of which a process handles the part
      (a, b). */
  ghost predicate InGroup(ctx: Context, i: nat, j: nat, A: seq<Word>, B: seq<Word>, C: seq<Word>, wa: seq<Window>,
                          wb: seq<Window>, wc: seq<Window>, la: seq<seq<Word>>, lb: seq<seq<Word>>, lc: seq<seq<Word>>,
                          first: seq<seq<Word>>, second: seq<seq<Word>>, third: seq<seq<Word>>,
                          a: nat, b: nat, k: nat, q: nat) {
    var G := ctx.perCoreGridSize;
    && a == i * ctx.cpuGridSize + ctx.cpuI && b == j * ctx.cpuGridSize + ctx.cpuJ
    && a < Pow2(k) && b < Pow2(k) && k + q <= 32 && G == Pow2(q) && Loaded(A, B, C, wa, wb, wc, la, lb, lc, G)
    && IsGroup(la, first, a, G) && IsGroup(lb, second, b, G) && IsGroup(lc, third, XorU32(a, b), G)
  }

  /** tg_task_work: the tasks of a group, one for each pair (r, s). */
  method GroupTasks(ctx: Context, i: nat, j: nat, wa: seq<Window>, wb: seq<Window>, wc: seq<Window>,
                    ghost A: seq<Word>, ghost B: seq<Word>, ghost C: seq<Word>, ghost la: seq<seq<Word>>,
                    ghost lb: seq<seq<Word>>, ghost lc: seq<seq<Word>>,
                    ghost first: seq<seq<Word>>, ghost second: seq<seq<Word>>, ghost third: seq<seq<Word>>,
                    ghost a: nat, ghost b: nat, ghost k: nat, ghost q: nat)
    returns (tasks: seq<Task>)
    requires InGroup(ctx, i, j, A, B, C, wa, wb, wc, la, lb, lc, first, second, third, a, b, k, q)
    ensures AllTasks(tasks, a, b, ctx.perCoreGridSize, ctx.perCoreGridSize)
    ensures forall t | 0 <= t < |tasks| :: TaskOk(tasks[t], A, B, C, first, second, third)
  {
    tasks := [];
    var G := ctx.perCoreGridSize;
    for r := 0 to G
      invariant AllTasks(tasks, a, b, G, r)
      invariant forall t | 0 <= t < |tasks| :: TaskOk(tasks[t], A, B, C, first, second, third)
    {
      tasks := RowTasks(ctx, i, j, r, wa, wb, wc, tasks, A, B, C, la, lb, lc, first, second, third, a, b, k, q);
    }
  }

  /** The tasks of the pairs (r, s) with r below n, row by row. */
  ghost predicate AllTasks(tasks: seq<Task>, a: nat, b: nat, G: nat, n: nat) {
    && |tasks| == n * G
    && forall r: nat, s: nat | r < n && s < G :: TaskAt(tasks, a, b, G, r, s)
  }

  ghost predicate TaskAt(tasks: seq<Task>, a: nat, b: nat, G: nat, r: nat, s: nat) {
    r * G + s < |tasks| && tasks[r * G + s].i == a * G + r && tasks[r * G + s].j == b * G + s
  }

  lemma RowDone(tasks: seq<Task>, row: seq<Task>, a: nat, b: nat, G: nat, n: nat)
    requires AllTasks(tasks, a, b, G, n) && |row| == G
    requires forall s | 0 <= s < G :: row[s].i == a * G + n && row[s].j == b * G + s
    ensures AllTasks(tasks + row, a, b, G, n + 1)
  {
    assert (n + 1) * G == n * G + G;
    forall r: nat, s: nat | r < n + 1 && s < G
      ensures TaskAt(tasks + row, a, b, G, r, s)
    {
      if r < n {
        assert TaskAt(tasks, a, b, G, r, s);
      } else {
        assert (tasks + row)[n * G + s] == row[s];
      }
    }
  }

  /** The task of the pair (r, s). */
  method OneTask(ctx: Context, i: nat, j: nat, r: nat, s: nat, wa: seq<Window>, wb: seq<Window>, wc: seq<Window>,
                 ghost A: seq<Word>, ghost B: seq<Word>, ghost C: seq<Word>, ghost la: seq<seq<Word>>,
                 ghost lb: seq<seq<Word>>, ghost lc: seq<seq<Word>>,
                 ghost first: seq<seq<Word>>, ghost second: seq<seq<Word>>, ghost third: seq<seq<Word>>,
                 ghost a: nat, ghost b: nat, ghost k: nat, ghost q: nat)
    returns (task: Task)
    requires InGroup(ctx, i, j, A, B, C, wa, wb, wc, la, lb, lc, first, second, third, a, b, k, q)
    requires r < ctx.perCoreGridSize && s < ctx.perCoreGridSize
    ensures task.i == a * ctx.perCoreGridSize + r && task.j == b * ctx.perCoreGridSize + s
    ensures TaskOk(task, A, B, C, first, second, third)
  {
    var idx := new nat[3];
    TaskIdx(ctx, i, j, r, s, idx);
    ghost var G := ctx.perCoreGridSize;
    TaskIsRight(A, B, C, wa, wb, wc, la, lb, lc, first, second, third, a, b, k, r, s, q, G, a * G + r, b * G + s);
    task := Task(idx[0], idx[1], idx[2], Lists(wa[r], wb[s], wc[XorU32(r, s)]));
  }

  method RowTasks(ctx: Context, i: nat, j: nat, r: nat, wa: seq<Window>, wb: seq<Window>, wc: seq<Window>,
                  tasks: seq<Task>,
                  ghost A: seq<Word>, ghost B: seq<Word>, ghost C: seq<Word>, ghost la: seq<seq<Word>>,
                  ghost lb: seq<seq<Word>>, ghost lc: seq<seq<Word>>,
                  ghost first: seq<seq<Word>>, ghost second: seq<seq<Word>>, ghost third: seq<seq<Word>>,
                  ghost a: nat, ghost b: nat, ghost k: nat, ghost q: nat)
    returns (tasks': seq<Task>)
    requires InGroup(ctx, i, j, A, B, C, wa, wb, wc, la, lb, lc, first, second, third, a, b, k, q)
    requires r < ctx.perCoreGridSize && AllTasks(tasks, a, b, ctx.perCoreGridSize, r)
    requires forall t | 0 <= t < |tasks| :: TaskOk(tasks[t], A, B, C, first, second, third)
    ensures AllTasks(tasks', a, b, ctx.perCoreGridSize, r + 1)
    ensures forall t | 0 <= t < |tasks'| :: TaskOk(tasks'[t], A, B, C, first, second, third)
  {
    var G := ctx.perCoreGridSize;
    var row: seq<Task> := [];
    for s := 0 to G
      invariant |row| == s && forall t | 0 <= t < s :: row[t].i == a * G + r && row[t].j == b * G + t
      invariant forall t | 0 <= t < s :: TaskOk(row[t], A, B, C, first, second, third)
    {
      var task := OneTask(ctx, i, j, r, s, wa, wb, wc, A, B, C, la, lb, lc, first, second, third, a, b, k, q);
      row := row + [task];
    }
    RowDone(tasks, row, a, b, G, r);
    tasks' := tasks + row;
  }

  /** do_task_group: the three files of the group are loaded, and its tasks are listed. */
  method DoTaskGroup(ctx: Context, i: nat, j: nat, A: array<Word>, B: array<Word>, C: array<Word>,
                     ghost la: seq<seq<Word>>, ghost lb: seq<seq<Word>>, ghost lc: seq<seq<Word>>,
                     ghost first: seq<seq<Word>>, ghost second: seq<seq<Word>>, ghost third: seq<seq<Word>>,
                     ghost a: nat, ghost b: nat, ghost k: nat, ghost q: nat)
    returns (ok: bool, tasks: seq<Task>)
    requires Grouped(A[..], la) && Grouped(B[..], lb) && Grouped(C[..], lc)
    requires a == i * ctx.cpuGridSize + ctx.cpuI && b == j * ctx.cpuGridSize + ctx.cpuJ
    requires a < Pow2(k) && b < Pow2(k) && k + q <= 32 && ctx.perCoreGridSize == Pow2(q)
    requires ctx.perCoreGridSize == |la| == |lb| == |lc| ==>
      IsGroup(la, first, a, |la|) && IsGroup(lb, second, b, |lb|) && IsGroup(lc, third, XorU32(a, b), |lc|)
    ensures ok <==> ctx.perCoreGridSize == |la| == |lb| == |lc|
    ensures ok ==> AllTasks(tasks, a, b, ctx.perCoreGridSize, ctx.perCoreGridSize)
    ensures ok ==> forall t | 0 <= t < |tasks| :: TaskOk(tasks[t], A[..], B[..], C[..], first, second, third)
  {
    tasks := [];
    var wa, wb, wc;
    ok, wa := LoadWindows(A, ctx.perCoreGridSize, la);
    if !ok {
      return;
    }
    ok, wb := LoadWindows(B, ctx.perCoreGridSize, lb);
    if !ok {
      return;
    }
    ok, wc := LoadWindows(C, ctx.perCoreGridSize, lc);
    if ok {
      tasks := GroupTasks(ctx, i, j, wa, wb, wc, A[..], B[..], C[..], la, lb, lc, first, second, third, a, b, k, q);
    }
  }

  // The jobs.

  /** The size of the grid of task groups, and the number of jobs. */
  function GroupGrid(ctx: Context): (n: nat)
    requires ctx.cpuGridSize > 0 && ctx.perCoreGridSize > 0
  {
    ctx.taskGridSize / ctx.cpuGridSize / ctx.perCoreGridSize
  }

  function Jobs(ctx: Context): (n: nat)
    requires ctx.cpuGridSize > 0 && ctx.perCoreGridSize > 0 && ctx.tgPerJob > 0
  {
    GroupGrid(ctx) * GroupGrid(ctx) / ctx.tgPerJob
  }

  /** The number of groups in a row of their grid: how often the lists of a group fit. */
  lemma GroupsInRow(ctx: Context)
    requires ctx.cpuGridSize > 0 && ctx.perCoreGridSize > 0
    ensures ctx.cpuGridSize * ctx.perCoreGridSize > 0
    ensures GroupGrid(ctx) == ctx.taskGridSize / (ctx.cpuGridSize * ctx.perCoreGridSize)
  {
    QuotientOfQuotient(ctx.taskGridSize, ctx.cpuGridSize, ctx.perCoreGridSize);
  }

  /** The task groups of a job, each with its row and column in the grid of groups. */
  ghost predicate IsJob(ctx: Context, job: nat, groups: seq<(nat, nat)>, n: nat) {
    && |groups| == ctx.tgPerJob && n > 0
    && forall t | 0 <= t < |groups| :: groups[t] == ((job * ctx.tgPerJob + t) / n, (job * ctx.tgPerJob + t) % n)
  }

  /** Jobs are numbered from zero on, and each of them takes its groups from those that are left. */
  lemma JobExists(ctx: Context, job: nat, n: nat)
    requires ctx.cpuGridSize > 0 && ctx.perCoreGridSize > 0 && ctx.tgPerJob > 0 && n == GroupGrid(ctx)
    ensures job < Jobs(ctx) <==> (job + 1) * ctx.tgPerJob <= n * n
    ensures job < Jobs(ctx) ==> n > 0
  {
    BelowQuotient(job, n * n, ctx.tgPerJob);
    if n == 0 {
      Divided(n * n, ctx.tgPerJob);
    }
  }

  /** The groups of a job, one after another, in rows of n. */
  method ListGroups(ctx: Context, job: nat, n: nat) returns (groups: seq<(nat, nat)>)
    requires n > 0
    ensures IsJob(ctx, job, groups, n)
  {
    groups := [];
    for t := 0 to ctx.tgPerJob
      invariant |groups| == t
      invariant forall u | 0 <= u < t :: groups[u] == ((job * ctx.tgPerJob + u) / n, (job * ctx.tgPerJob + u) % n)
    {
      var k := job * ctx.tgPerJob + t;
      groups := groups + [(k / n, k % n)];
    }
  }

  /** do_job: the task groups of a job, or a failure if there is no such job. */
  method DoJob(ctx: Context, job: nat) returns (ok: bool, groups: seq<(nat, nat)>)
    requires ctx.cpuGridSize > 0 && ctx.perCoreGridSize > 0 && ctx.tgPerJob > 0
    ensures ctx.cpuGridSize * ctx.perCoreGridSize > 0
    ensures var n := ctx.taskGridSize / (ctx.cpuGridSize * ctx.perCoreGridSize);
      && (ok <==> (job + 1) * ctx.tgPerJob <= n * n)
      && (ok ==> IsJob(ctx, job, groups, n))
  {
    var grid := GroupGrid(ctx);
    GroupsInRow(ctx);
    JobExists(ctx, job, grid);
    groups := [];
    ok := job < Jobs(ctx);
    if ok {
      groups := ListGroups(ctx, job, grid);
    }
  }
}
