/** All the jobs together: which pairs of lists they join. */
module JobCoverage {
  import opened Numbers
  import opened TaskGroups

  /** Where a task is done: the job, the group within the job, the process, and the pair within the group. */
  datatype Place = Place(job: nat, t: nat, cpuI: nat, cpuJ: nat, r: nat, s: nat)

  /** The sizes that decide what is done. */
  datatype Grid = Grid(lists: nat, groups: nat, cpus: nat, G: nat, jobs: nat, perJob: nat)

  ghost function GridOf(ctx: Context): (g: Grid)
    requires ctx.cpuGridSize > 0 && ctx.perCoreGridSize > 0 && ctx.tgPerJob > 0
  {
    Grid(ctx.taskGridSize, GroupGrid(ctx), ctx.cpuGridSize, ctx.perCoreGridSize, Jobs(ctx), ctx.tgPerJob)
  }

  /** The lists that the groups reach, and the groups that the jobs do. */
  ghost function Reach(g: Grid): (n: nat) {
    g.groups * g.cpus * g.G
  }

  ghost predicate Sound(g: Grid) {
    g.cpus > 0 && g.G > 0 && g.perJob > 0 && Reach(g) <= g.lists && g.jobs * g.perJob <= g.groups * g.groups
  }

  ghost predicate Valid(g: Grid, p: Place) {
    p.job < g.jobs && p.t < g.perJob && p.cpuI < g.cpus && p.cpuJ < g.cpus && p.r < g.G && p.s < g.G
  }

  ghost function GroupNumber(g: Grid, p: Place): (k: nat) {
    p.job * g.perJob + p.t
  }

  /** The task (i, j) is done at place p. */
  ghost predicate DoneAt(g: Grid, p: Place, i: nat, j: nat) {
    && Valid(g, p) && g.groups > 0
    && var k := GroupNumber(g, p);
       i == Index(k / g.groups, p.cpuI, p.r, g.cpus, g.G) && j == Index(k % g.groups, p.cpuJ, p.s, g.cpus, g.G)
  }

  /** The index of list r of process c in group u. */
  ghost function Index(u: nat, c: nat, r: nat, cpus: nat, G: nat): (i: nat) {
    (u * cpus + c) * G + r
  }

  /** What a process does with a job: if DoJob and DoTaskGroup have listed the groups of the job and the tasks of a
      group, the entry at place p is the task that is done there. */
  lemma DoneIsListed(ctx: Context, p: Place, groups: seq<(nat, nat)>, a: nat, b: nat, tasks: seq<Task>, task: Task,
                     i: nat, j: nat)
    requires ctx.cpuGridSize > 0 && ctx.perCoreGridSize > 0 && ctx.tgPerJob > 0
    requires Valid(GridOf(ctx), p) && ctx.cpuI == p.cpuI && ctx.cpuJ == p.cpuJ
      && IsJob(ctx, p.job, groups, GroupGrid(ctx))
    requires a == groups[p.t].0 * ctx.cpuGridSize + ctx.cpuI && b == groups[p.t].1 * ctx.cpuGridSize + ctx.cpuJ
    requires AllTasks(tasks, a, b, ctx.perCoreGridSize, ctx.perCoreGridSize)
      && IsTask(tasks, ctx.perCoreGridSize, p.r, p.s, task)
    ensures DoneAt(GridOf(ctx), p, i, j) <==> task.i == i && task.j == j
  {
    assert TaskAt(tasks, a, b, ctx.perCoreGridSize, p.r, p.s);
  }

  /** The task of the pair (r, s) in the list of the tasks of a group. */
  ghost predicate IsTask(tasks: seq<Task>, G: nat, r: nat, s: nat, task: Task) {
    r * G + s < |tasks| && tasks[r * G + s] == task
  }

  lemma IndexUnique(u: nat, c: nat, r: nat, u': nat, c': nat, r': nat, cpus: nat, G: nat)
    requires c < cpus && c' < cpus && r < G && r' < G && Index(u, c, r, cpus, G) == Index(u', c', r', cpus, G)
    ensures u == u' && c == c' && r == r'
  {
    QuotientUnique(u * cpus + c, r, u' * cpus + c', r', G);
    QuotientUnique(u, c, u', c', cpus);
  }

  /** No task is done twice. */
  lemma DoneOnce(g: Grid, p: Place, p': Place, i: nat, j: nat)
    requires DoneAt(g, p, i, j) && DoneAt(g, p', i, j)
    ensures p == p'
  {
    var k, k' := GroupNumber(g, p), GroupNumber(g, p');
    IndexUnique(k / g.groups, p.cpuI, p.r, k' / g.groups, p'.cpuI, p'.r, g.cpus, g.G);
    IndexUnique(k % g.groups, p.cpuJ, p.s, k' % g.groups, p'.cpuJ, p'.s, g.cpus, g.G);
    Divided(k, g.groups);
    Divided(k', g.groups);
    QuotientUnique(p.job, p.t, p'.job, p'.t, g.perJob);
  }

  lemma QuotientBelow(x: nat, n: nat, d: nat)
    requires d > 0 && x < n * d
    ensures x / d < n
  {
    Divided(x, d);
    if x / d >= n {
      NotLess(n, x / d, d);
    }
  }

  lemma NotLess(n: nat, m: nat, d: nat)
    requires n <= m && d > 0
    ensures n * d <= m * d
  {
    if n < m {
      MoreThan(n, m, d);
    }
  }

  lemma Regroup(a: nat, b: nat, c: nat)
    ensures a * b * c == a * c * b
  {
  }

  lemma GridIsSound(ctx: Context)
    requires ctx.cpuGridSize > 0 && ctx.perCoreGridSize > 0 && ctx.tgPerJob > 0
    ensures Sound(GridOf(ctx))
  {
    var n := ctx.taskGridSize / ctx.cpuGridSize;
    Divided(ctx.taskGridSize, ctx.cpuGridSize);
    Divided(n, ctx.perCoreGridSize);
    Regroup(n / ctx.perCoreGridSize, ctx.cpuGridSize, ctx.perCoreGridSize);
    NotLess(n / ctx.perCoreGridSize * ctx.perCoreGridSize, n, ctx.cpuGridSize);
    Divided(GroupGrid(ctx) * GroupGrid(ctx), ctx.tgPerJob);
  }

  lemma IndexBelow(u: nat, c: nat, r: nat, n: nat, cpus: nat, G: nat)
    requires u < n && c < cpus && r < G
    ensures Index(u, c, r, cpus, G) < n * cpus * G
  {
    ProductFits(u, n, c, cpus);
    ProductFits(u * cpus + c, n * cpus, r, G);
  }

  lemma GroupBelow(g: Grid, p: Place)
    requires Sound(g) && Valid(g, p)
    ensures GroupNumber(g, p) < g.jobs * g.perJob
  {
    ProductFits(p.job, g.jobs, p.t, g.perJob);
  }

  lemma GroupCoordinates(g: Grid, p: Place)
    requires Sound(g) && Valid(g, p) && g.groups > 0
    ensures GroupNumber(g, p) / g.groups < g.groups && GroupNumber(g, p) % g.groups < g.groups
  {
    GroupBelow(g, p);
    QuotientBelow(GroupNumber(g, p), g.groups, g.groups);
  }

  /** Nothing outside the grid is done. */
  lemma DoneInReach(g: Grid, p: Place, i: nat, j: nat)
    requires Sound(g) && DoneAt(g, p, i, j)
    ensures i < Reach(g) && j < Reach(g)
  {
    var k := GroupNumber(g, p);
    GroupCoordinates(g, p);
    IndexBelow(k / g.groups, p.cpuI, p.r, g.groups, g.cpus, g.G);
    IndexBelow(k % g.groups, p.cpuJ, p.s, g.groups, g.cpus, g.G);
  }

  /** The group, process and list that an index stands for. */
  lemma Decompose(i: nat, n: nat, cpus: nat, G: nat) returns (u: nat, c: nat, r: nat)
    requires cpus > 0 && G > 0 && i < n * cpus * G
    ensures u < n && c < cpus && r < G && i == Index(u, c, r, cpus, G)
  {
    Divided(i, G);
    QuotientBelow(i, n * cpus, G);
    r := i % G;
    Divided(i / G, cpus);
    QuotientBelow(i / G, n, cpus);
    u, c := i / G / cpus, i / G % cpus;
  }

  lemma GroupAt(u: nat, v: nat, n: nat) returns (k: nat)
    requires u < n && v < n
    ensures k < n * n && k / n == u && k % n == v
  {
    k := u * n + v;
    ProductFits(u, n, v, n);
    Divided(k, n);
    QuotientUnique(k / n, k % n, u, v, n);
  }

  lemma JobAt(k: nat, jobs: nat, perJob: nat) returns (job: nat, t: nat)
    requires perJob > 0 && k < jobs * perJob
    ensures job < jobs && t < perJob && job * perJob + t == k
  {
    Divided(k, perJob);
    QuotientBelow(k, jobs, perJob);
    job, t := k / perJob, k % perJob;
  }

  lemma PlaceOf(g: Grid, i: nat, j: nat) returns (p: Place)
    requires Sound(g) && i < Reach(g) && j < Reach(g) && g.jobs * g.perJob == g.groups * g.groups
    ensures DoneAt(g, p, i, j)
  {
    var u, ci, r := Decompose(i, g.groups, g.cpus, g.G);
    var v, cj, s := Decompose(j, g.groups, g.cpus, g.G);
    var k := GroupAt(u, v, g.groups);
    var job, t := JobAt(k, g.jobs, g.perJob);
    p := Place(job, t, ci, cj, r, s);
  }

  /** The sizes divide each other without remainder. */
  ghost predicate Exact(g: Grid) {
    Reach(g) == g.lists && g.jobs * g.perJob == g.groups * g.groups
  }

  /** The condition in terms of the sizes: the lists of a group divide all the lists, and a job divides all the
      groups. */
  ghost predicate SizesDivide(ctx: Context)
    requires ctx.cpuGridSize > 0 && ctx.perCoreGridSize > 0 && ctx.tgPerJob > 0
  {
    var groupSize := ctx.cpuGridSize * ctx.perCoreGridSize;
    groupSize > 0 && ctx.taskGridSize % groupSize == 0
    && var n := ctx.taskGridSize / groupSize; n * n % ctx.tgPerJob == 0
  }

  lemma ExactIffSizesDivide(ctx: Context)
    requires ctx.cpuGridSize > 0 && ctx.perCoreGridSize > 0 && ctx.tgPerJob > 0
    ensures Exact(GridOf(ctx)) <==> SizesDivide(ctx)
  {
    GroupsInRow(ctx);
    var groupSize := ctx.cpuGridSize * ctx.perCoreGridSize;
    var n := ctx.taskGridSize / groupSize;
    Divided(ctx.taskGridSize, groupSize);
    Divided(n * n, ctx.tgPerJob);
    Multiply(n, ctx.cpuGridSize, ctx.perCoreGridSize);
  }

  lemma Multiply(a: nat, b: nat, c: nat)
    ensures a * b * c == a * (b * c)
  {
  }

  ghost predicate Covers(g: Grid) {
    forall i: nat, j: nat | i < g.lists && j < g.lists :: IsDone(g, i, j)
  }

  ghost predicate IsDone(g: Grid, i: nat, j: nat) {
    exists p: Place :: DoneAt(g, p, i, j)
  }

  lemma LastOfSquare(n: nat, k: nat)
    requires n > 0 && k / n == n - 1 && k % n == n - 1
    ensures k + 1 == n * n
  {
    Divided(k, n);
    assert n * n == (n - 1) * n + n;
  }

  lemma SameGroups(g: Grid, p: Place, u: nat, i: nat)
    requires DoneAt(g, p, i, i) && i == Index(u, 0, 0, g.cpus, g.G)
    ensures GroupNumber(g, p) / g.groups == u && GroupNumber(g, p) % g.groups == u
  {
    var k := GroupNumber(g, p);
    IndexUnique(k / g.groups, p.cpuI, p.r, u, 0, 0, g.cpus, g.G);
    IndexUnique(k % g.groups, p.cpuJ, p.s, u, 0, 0, g.cpus, g.G);
  }

  /** If groups are left over, the last one is done by no job. */
  lemma LastGroup(g: Grid)
    requires Sound(g) && g.jobs * g.perJob < g.groups * g.groups
    ensures !Covers(g)
  {
    var last := g.groups - 1;
    var i := Index(last, 0, 0, g.cpus, g.G);
    IndexBelow(last, 0, 0, g.groups, g.cpus, g.G);
    if IsDone(g, i, i) {
      var p: Place :| DoneAt(g, p, i, i);
      SameGroups(g, p, last, i);
      LastOfSquare(g.groups, GroupNumber(g, p));
      GroupBelow(g, p);
    }
  }

  /** The jobs do all the tasks exactly when the sizes divide each other without remainder. */
  lemma JobsCover(ctx: Context)
    requires ctx.cpuGridSize > 0 && ctx.perCoreGridSize > 0 && ctx.tgPerJob > 0
    ensures Covers(GridOf(ctx)) <==> SizesDivide(ctx)
  {
    ExactIffSizesDivide(ctx);
    var g := GridOf(ctx);
    GridIsSound(ctx);
    if Exact(g) {
      forall i: nat, j: nat | i < g.lists && j < g.lists
        ensures IsDone(g, i, j)
      {
        var p := PlaceOf(g, i, j);
      }
    } else if g.jobs * g.perJob < g.groups * g.groups {
      LastGroup(g);
    } else {
      PastReach(g);
    }
  }

  lemma PastReach(g: Grid)
    requires Sound(g) && Reach(g) < g.lists
    ensures !Covers(g)
  {
    var i := Reach(g);
    if IsDone(g, i, i) {
      var p: Place :| DoneAt(g, p, i, i);
      DoneInReach(g, p, i, i);
    }
  }
}
