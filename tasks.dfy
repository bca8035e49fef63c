/**
 * The task table the build script declares with `gulp.task(name, deps, fn)`:
 * for each task name, the names of the tasks that must finish before it
 * starts. Only the dependencies of `assets:views` depend on the
 * `production` flag. Besides the table itself this module states what makes
 * it runnable: every dependency is a declared task, and an order exists in
 * which each task comes after all of its dependencies, so the graph has no
 * cycle.
 */
module Tasks {

  type Graph = map<string, seq<string>>

  const Stylesheets := "assets:stylesheets"
  const Javascripts := "assets:javascripts"
  const Modernizr := "assets:modernizr"
  const Views := "assets:views"
  const RevisionsClean := "assets:revisions:clean"
  const Revisions := "assets:revisions"
  const AssetsBuild := "assets:build"
  const AssetsWatch := "assets:watch"
  const ServerBuild := "server:build"
  const ServerSpawn := "server:spawn"
  const ServerWatch := "server:watch"
  const Build := "build"
  const Watch := "watch"
  const Default := "default"

  /** The declared tasks and their dependency lists, for one value of the `production` flag. */
  function Declarations(production: bool): (g: Graph)
    ensures DependenciesDeclared(g)
    ensures Views in g && (g[Views] != [] <==> production)
  {
    map[
      Stylesheets := [],
      Javascripts := [],
      Modernizr := [],
      Views := if production then [RevisionsClean, Revisions] else [],
      RevisionsClean := [],
      Revisions := [RevisionsClean],
      AssetsBuild := [Stylesheets, Javascripts, Modernizr, Views],
      AssetsWatch := [],
      ServerBuild := [],
      ServerSpawn := [],
      ServerWatch := [],
      Build := [AssetsBuild, ServerBuild],
      Watch := [AssetsBuild, ServerBuild],
      Default := [Build]
    ]
  }

  /** Every dependency named in the graph is itself a declared task. */
  ghost predicate DependenciesDeclared(g: Graph)
  {
    forall t, d :: t in g && d in g[t] ==> d in g
  }

  /**
   * `order` lists every declared task exactly once, and each task after all
   * of its dependencies: an order in which the tasks can run.
   */
  ghost predicate IsDependencyOrder(g: Graph, order: seq<string>)
  {
    && (forall i, j :: 0 <= i < j < |order| ==> order[i] != order[j])
    && (forall t :: t in g <==> t in order)
    && (forall i, d :: 0 <= i < |order| && d in g[order[i]] ==> d in order[..i])
  }

  /** A chain of tasks, each one a dependency of the one before it. */
  ghost predicate IsDependencyChain(g: Graph, chain: seq<string>)
  {
    && |chain| >= 1
    && (forall k :: 0 <= k < |chain| ==> chain[k] in g)
    && (forall k :: 0 <= k < |chain| - 1 ==> chain[k + 1] in g[chain[k]])
  }

  /** No task depends, directly or through other tasks, on itself. */
  ghost predicate Acyclic(g: Graph)
  {
    forall chain :: IsDependencyChain(g, chain) && |chain| >= 2 ==> chain[0] != chain[|chain| - 1]
  }

  /** The position of a task in an order. */
  function IndexOf(order: seq<string>, t: string): (i: nat)
    requires t in order
    ensures i < |order| && order[i] == t
    ensures forall j :: 0 <= j < i ==> order[j] != t
  {
    if order[0] == t then 0 else 1 + IndexOf(order[1..], t)
  }

  /** In a dependency order a dependency sits strictly before the task that needs it. */
  lemma DependencyComesFirst(g: Graph, order: seq<string>, t: string, d: string)
    requires IsDependencyOrder(g, order)
    requires t in g && d in g[t]
    ensures d in order && IndexOf(order, d) < IndexOf(order, t)
  {
    var i := IndexOf(order, t);
    assert d in order[..i];
    var j :| 0 <= j < i && order[j] == d;
    assert IndexOf(order, d) == j;
  }

  /** Along a dependency chain the positions in a dependency order strictly decrease. */
  lemma {:induction false} ChainDescends(g: Graph, order: seq<string>, chain: seq<string>)
    requires IsDependencyOrder(g, order)
    requires IsDependencyChain(g, chain) && |chain| >= 2
    ensures chain[0] in order && chain[|chain| - 1] in order
    ensures IndexOf(order, chain[|chain| - 1]) < IndexOf(order, chain[0])
  {
    DependencyComesFirst(g, order, chain[0], chain[1]);
    if |chain| > 2 {
      ChainDescends(g, order, chain[1..]);
    }
  }

  /** A graph that has a dependency order has no cycle and no undeclared dependency. */
  lemma OrderedGraphIsSound(g: Graph, order: seq<string>)
    requires IsDependencyOrder(g, order)
    ensures Acyclic(g)
    ensures DependenciesDeclared(g)
  {
    forall chain | IsDependencyChain(g, chain) && |chain| >= 2
      ensures chain[0] != chain[|chain| - 1]
    {
      ChainDescends(g, order, chain);
    }
    forall t, d | t in g && d in g[t]
      ensures d in g
    {
      DependencyComesFirst(g, order, t, d);
    }
  }

  /** One order that serves for both values of the flag. */
  const RunOrder: seq<string> := [
    Stylesheets, Javascripts, Modernizr, RevisionsClean, Revisions, Views,
    AssetsBuild, AssetsWatch, ServerBuild, ServerSpawn, ServerWatch,
    Build, Watch, Default
  ]

  lemma RunOrderDistinct()
    ensures forall i, j :: 0 <= i < j < |RunOrder| ==> RunOrder[i] != RunOrder[j]
  {
  }

  lemma RunOrderCoversDeclarations(production: bool)
    ensures forall t :: t in Declarations(production) <==> t in RunOrder
  {
  }

  lemma RunOrderAfterDependencies(production: bool)
    ensures forall i, d :: 0 <= i < |RunOrder| && d in Declarations(production)[RunOrder[i]] ==> d in RunOrder[..i]
  {
    var g := Declarations(production);
    forall i, d | 0 <= i < |RunOrder| && d in g[RunOrder[i]]
      ensures d in RunOrder[..i]
    {
      if i == 4 {
        assert RunOrder[..i][3] == RevisionsClean;
      } else if i == 5 {
        assert RunOrder[..i][3] == RevisionsClean && RunOrder[..i][4] == Revisions;
      } else if i == 6 {
        assert RunOrder[..i] == [Stylesheets, Javascripts, Modernizr, RevisionsClean, Revisions, Views];
      } else if i == 11 || i == 12 {
        assert RunOrder[..i][6] == AssetsBuild && RunOrder[..i][8] == ServerBuild;
      } else if i == 13 {
        assert RunOrder[..i][11] == Build;
      }
    }
  }

  /** `RunOrder` runs every declared task after its dependencies, in production and development. */
  lemma RunOrderIsDependencyOrder(production: bool)
    ensures IsDependencyOrder(Declarations(production), RunOrder)
  {
    RunOrderDistinct();
    RunOrderCoversDeclarations(production);
    RunOrderAfterDependencies(production);
  }

  /**
   * The declared table is runnable for both values of `production`: every
   * dependency is declared and no task depends on itself.
   */
  lemma DeclarationsAreSound(production: bool)
    ensures DependenciesDeclared(Declarations(production))
    ensures Acyclic(Declarations(production))
  {
    RunOrderIsDependencyOrder(production);
    OrderedGraphIsSound(Declarations(production), RunOrder);
  }

  /**
   * `assets:revisions` always waits for `assets:revisions:clean`;
   * `assets:views` waits for both in production and for nothing otherwise.
   */
  lemma RevisionDependencies(production: bool)
    ensures Declarations(production)[Revisions] == [RevisionsClean]
    ensures Declarations(production)[Views] == if production then [RevisionsClean, Revisions] else []
  {
  }

  /**
   * In production every admissible run cleans old revisions, then revisions
   * the assets, then minifies the views, and only then finishes `build`.
   */
  lemma ProductionRunsRevisionsBeforeViews(order: seq<string>)
    requires IsDependencyOrder(Declarations(true), order)
    ensures RevisionsClean in order && Revisions in order && Views in order && Build in order
    ensures IndexOf(order, RevisionsClean) < IndexOf(order, Revisions) < IndexOf(order, Views)
    ensures IndexOf(order, Views) < IndexOf(order, Build)
  {
    var g := Declarations(true);
    assert g[Revisions] == [RevisionsClean] && g[Views] == [RevisionsClean, Revisions];
    assert g[AssetsBuild][3] == Views && g[Build][0] == AssetsBuild;
    DependencyComesFirst(g, order, Revisions, RevisionsClean);
    DependencyComesFirst(g, order, Views, Revisions);
    DependencyComesFirst(g, order, AssetsBuild, Views);
    DependencyComesFirst(g, order, Build, AssetsBuild);
  }

  /**
   * A `gulp.watch` binding: when a file matching one of `globs` changes, the
   * `targets` are started; `serial` marks the binding whose targets
   * gulp-sync runs one after another.
   */
  datatype WatchBinding = WatchBinding(globs: seq<string>, targets: seq<string>, serial: bool)

  /** The bindings `assets:watch` and `server:watch` register. */
  const WatchBindings: seq<WatchBinding> := [
    WatchBinding(["assets/stylesheets/**/*.scss"], [Stylesheets], false),
    WatchBinding(["assets/javascripts/**/*.js", "bower.json"], [Javascripts], false),
    WatchBinding(["views/**/*.tmpl"], [Views], false),
    WatchBinding([".views/**/*.tmpl", "locales/*.json"], [ServerSpawn], false),
    WatchBinding(["*/**/*.go"], [ServerBuild, ServerSpawn], true)
  ]

  /** The tasks the `watch` task starts once its dependencies are done. */
  const WatchStarts: seq<string> := [AssetsWatch, ServerWatch, ServerSpawn]

  /**
   * A change to Go source is the only one that runs its targets one after
   * another, and it rebuilds the server before it respawns it.
   */
  lemma GoSourcesRebuildThenRespawn()
    ensures forall b :: b in WatchBindings && "*/**/*.go" in b.globs ==> b.serial && b.targets == [ServerBuild, ServerSpawn]
    ensures forall b :: b in WatchBindings && b.serial ==> "*/**/*.go" in b.globs
  {
  }

  /** Every task a watch binding or the `watch` task starts is a declared task. */
  lemma StartedTasksDeclared(production: bool)
    ensures forall b, t :: b in WatchBindings && t in b.targets ==> t in Declarations(production)
    ensures forall t :: t in WatchStarts ==> t in Declarations(production)
  {
  }
}
