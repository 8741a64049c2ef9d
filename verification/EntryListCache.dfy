/** The persistent entry-list file behind `calcBaseEntryList` (hive/src/bdt_file.cxx): lists
    are looked up by name, and a configuration counts as cached when its hash is a key. */
module EntryListCache {
  import opened JenkinsHash
  import opened Wrappers

  /** Entry numbers, strictly increasing. */
  type EntryList = seq<nat>

  /** `tvertex->Draw(">>list", cut, "entrylist")` over a tree of n rows. */
  function Draw(n: nat, cut: nat -> bool): EntryList {
    if n == 0 then []
    else if cut(n - 1) then Draw(n - 1, cut) + [n - 1]
    else Draw(n - 1, cut)
  }

  ghost predicate Ascends(list: EntryList) {
    forall i, j :: 0 <= i < j < |list| ==> list[i] < list[j]
  }

  /** The list holds the passing rows, each once, in order. */
  lemma {:induction false} DrawMeaning(n: nat, cut: nat -> bool)
    ensures forall i: nat :: i in Draw(n, cut) <==> i < n && cut(i)
    ensures Ascends(Draw(n, cut))
  {
    if n > 0 {
      DrawMeaning(n - 1, cut);
      var front := Draw(n - 1, cut);
      assert forall i :: 0 <= i < |front| ==> front[i] in front;
    }
  }

  /** One request: the three texts that make up the key, and the data and cuts they stand for. */
  datatype Config = Config(name: Key, precuts: Key, tree: Key, rows: nat, stage0: nat -> bool, stage1: nat -> bool) {
    function CacheKey(): Key { name + precuts + tree }
    function KeyHash(): bv64 { Hash(CacheKey()) }
    function Topological(): EntryList { Draw(rows, stage0) }
    function Precut(): EntryList { Draw(rows, stage1) }
  }

  /** The list names of one file: only the precut list carries the tree name. */
  datatype ListName = TopologicalName | PrecutName(tree: Key)

  /** The file: its hash keys and the latest list stored under each name. */
  datatype Store = Store(keys: set<bv64>, lists: map<ListName, EntryList>)

  datatype Lists = Lists(topological: Option<EntryList>, precut: Option<EntryList>)

  function Get(s: Store, name: ListName): Option<EntryList> {
    if name in s.lists then Some(s.lists[name]) else None
  }

  function Fresh(c: Config): Lists {
    Lists(Some(c.Topological()), Some(c.Precut()))
  }

  function Loaded(s: Store, c: Config): Lists {
    if c.KeyHash() in s.keys then Lists(Get(s, TopologicalName), Get(s, PrecutName(c.tree))) else Fresh(c)
  }

  function Saved(s: Store, c: Config): Store {
    if c.KeyHash() in s.keys then s
    else Store(s.keys + {c.KeyHash()},
               s.lists[TopologicalName := c.Topological()][PrecutName(c.tree) := c.Precut()])
  }

  /** The file on disk and the two list members that the call leaves in the object. */
  class EntryLists {
    var keys: set<bv64>
    var lists: map<ListName, EntryList>
    var topologicalList: Option<EntryList>
    var precutList: Option<EntryList>

    function File(): Store
      reads this
    {
      Store(keys, lists)
    }

    function Current(): Lists
      reads this
    {
      Lists(topologicalList, precutList)
    }

    constructor ()
      ensures File() == Store({}, map[])
    {
      keys, lists := {}, map[];
      topologicalList, precutList := None, None;
    }

    method CalcBaseEntryList(c: Config)
      modifies this
      ensures File() == Saved(old(File()), c)
      ensures Current() == Loaded(old(File()), c)
      // Known: the stored lists of the two names. New: the events passing the cut of each stage.
      ensures keys == old(keys) + {Hash(c.name + c.precuts + c.tree)}
      ensures var known := Hash(c.name + c.precuts + c.tree) in old(keys);
        if known then
          && lists == old(lists)
          && topologicalList == (if TopologicalName in lists then Some(lists[TopologicalName]) else None)
          && precutList == (if PrecutName(c.tree) in lists then Some(lists[PrecutName(c.tree)]) else None)
        else
          && topologicalList.Some? && precutList.Some?
          && (forall k: nat :: k in topologicalList.value <==> k < c.rows && c.stage0(k))
          && (forall k: nat :: k in precutList.value <==> k < c.rows && c.stage1(k))
          && Ascends(topologicalList.value) && Ascends(precutList.value)
          && lists == old(lists)[TopologicalName := topologicalList.value][PrecutName(c.tree) := precutList.value]
    {
      DrawMeaning(c.rows, c.stage0);
      DrawMeaning(c.rows, c.stage1);
      var hash := ComputeHash(c.name + c.precuts + c.tree);
      var hashRight := hash in keys;
      if hashRight {
        topologicalList := if TopologicalName in lists then Some(lists[TopologicalName]) else None;
        precutList := if PrecutName(c.tree) in lists then Some(lists[PrecutName(c.tree)]) else None;
      } else {
        topologicalList := Some(Draw(c.rows, c.stage0));
        precutList := Some(Draw(c.rows, c.stage1));
        keys := keys + {hash};
        lists := lists[TopologicalName := topologicalList.value];
        lists := lists[PrecutName(c.tree) := precutList.value];
      }
    }
  }

  // ----- Histories of calls on one file -----

  function After(history: seq<Config>): Store {
    if history == [] then Store({}, map[])
    else Saved(After(history[..|history| - 1]), history[|history| - 1])
  }

  /** The calls of a history that regenerated the lists. */
  function Generated(history: seq<Config>): seq<Config> {
    if history == [] then []
    else
      var front, c := history[..|history| - 1], history[|history| - 1];
      if c.KeyHash() in After(front).keys then Generated(front) else Generated(front) + [c]
  }

  function LastOfTree(gen: seq<Config>, tree: Key): Option<Config> {
    if gen == [] then None
    else if gen[|gen| - 1].tree == tree then Some(gen[|gen| - 1])
    else LastOfTree(gen[..|gen| - 1], tree)
  }

  ghost predicate KnownHash(gen: seq<Config>, c: Config) {
    exists i :: 0 <= i < |gen| && gen[i].KeyHash() == c.KeyHash()
  }

  /** The keys in the file are the hashes of the regenerating calls. */
  lemma {:induction false} FileKeys(history: seq<Config>, c: Config)
    ensures c.KeyHash() in After(history).keys <==> KnownHash(Generated(history), c)
  {
    hide Config.KeyHash, Config.Topological, Config.Precut;
    if history != [] {
      var front, last := history[..|history| - 1], history[|history| - 1];
      FileKeys(front, c);
      var gen := Generated(front);
      if last.KeyHash() !in After(front).keys {
        KnownHashAppend(gen, last, c);
      }
    }
  }

  lemma KnownHashAppend(gen: seq<Config>, last: Config, c: Config)
    ensures KnownHash(gen + [last], c) <==> KnownHash(gen, c) || last.KeyHash() == c.KeyHash()
  {
    hide Config.KeyHash;
    if KnownHash(gen, c) {
      var i :| 0 <= i < |gen| && gen[i].KeyHash() == c.KeyHash();
      assert (gen + [last])[i] == gen[i];
    }
    assert (gen + [last])[|gen|] == last;
  }

  /** The list under each name is that of the last regenerating call that writes the name. */
  lemma {:induction false} FileLists(history: seq<Config>, tree: Key)
    ensures var s, gen := After(history), Generated(history);
      && Get(s, TopologicalName) == (if gen == [] then None else Some(gen[|gen| - 1].Topological()))
      && Get(s, PrecutName(tree)) == match LastOfTree(gen, tree)
           case None => None
           case Some(c) => Some(c.Precut())
  {
    hide Config.KeyHash, Config.Topological, Config.Precut;
    if history != [] {
      var front, c := history[..|history| - 1], history[|history| - 1];
      FileLists(front, tree);
      var gen := Generated(front);
      assert (gen + [c])[..|gen|] == gen;
    }
  }

  /** Exactly when a request gets the lists that a fresh selection would give: its hash is
      new, or the lists generated last (over all trees, and for its own tree) agree with its own. */
  lemma FreshIff(history: seq<Config>, c: Config)
    ensures var gen := Generated(history);
      Loaded(After(history), c) == Fresh(c)
      <==> (!KnownHash(gen, c)
            || (gen[|gen| - 1].Topological() == c.Topological()
                && LastOfTree(gen, c.tree).Some? && LastOfTree(gen, c.tree).value.Precut() == c.Precut()))
  {
    hide Config.KeyHash, Draw;
    FileKeys(history, c);
    FileLists(history, c.tree);
  }

  ghost predicate SameSelection(a: Config, b: Config) {
    a.tree == b.tree && a.Topological() == b.Topological() && a.Precut() == b.Precut()
  }

  /** The intended use: a request that was generated last, or whose hash is new, is served correctly. */
  lemma LastGeneratedIsFresh(history: seq<Config>, c: Config)
    requires var gen := Generated(history);
      !KnownHash(gen, c) || SameSelection(gen[|gen| - 1], c)
    ensures Loaded(After(history), c) == Fresh(c)
  {
    hide Config.KeyHash, Config.Topological, Config.Precut, After, Generated, Loaded;
    FreshIff(history, c);
  }

  /** Repeating one configuration, any number of times, always yields its own lists. */
  lemma {:induction false} OneConfigurationIsSafe(history: seq<Config>, c: Config)
    requires forall i :: 0 <= i < |history| ==> history[i].CacheKey() == c.CacheKey() && SameSelection(history[i], c)
    ensures Loaded(After(history), c) == Fresh(c)
    ensures forall i :: 0 <= i < |Generated(history)| ==> Generated(history)[i] in history
  {
    hide Config.KeyHash, Draw;
    GeneratedFromHistory(history);
    var gen := Generated(history);
    if KnownHash(gen, c) {
      assert gen[|gen| - 1] in history;
    }
    FreshIff(history, c);
  }

  lemma {:induction false} GeneratedFromHistory(history: seq<Config>)
    ensures forall i :: 0 <= i < |Generated(history)| ==> Generated(history)[i] in history
  {
    hide Config.KeyHash, Draw;
    if history != [] {
      GeneratedFromHistory(history[..|history| - 1]);
    }
  }

  /** Going back to an earlier configuration serves it the topological list of the other one:
      the key is still in the file but the list under the shared name is not its own. */
  lemma SwitchingBackIsStale(a: Config, b: Config)
    requires a.KeyHash() != b.KeyHash()
    ensures Loaded(After([a, b]), a).topological == Some(b.Topological())
    ensures a.tree == b.tree ==> Loaded(After([a, b]), a).precut == Some(b.Precut())
    ensures Loaded(After([a, b]), a) == Fresh(a)
       <==> a.Topological() == b.Topological() && (a.tree == b.tree ==> a.Precut() == b.Precut())
  {
    hide Config.KeyHash, Draw;
    assert [a, b][..1] == [a];
    assert [a][..0] == [];
    assert After([a]) == Saved(After([]), a);
    assert After([a, b]) == Saved(After([a]), b);
  }

  /** Two configurations whose keys have one length and differ in one character never share a
      cache entry, whatever the characters are. */
  lemma OneCharacterChangeRegenerates(a: Config, b: Config, i: nat)
    requires DifferExactlyAt(a.CacheKey(), b.CacheKey(), i)
    ensures Loaded(After([a]), b) == Fresh(b)
    ensures After([a, b]).keys == {a.KeyHash(), b.KeyHash()} && |After([a, b]).keys| == 2
  {
    OneCharacterNeverCollides(a.CacheKey(), b.CacheKey(), i);
    hide Config.KeyHash, Draw;
    assert [a, b][..1] == [a];
    assert [a][..0] == [];
    assert After([a]) == Saved(After([]), a);
    assert After([a, b]) == Saved(After([a]), b);
  }

  /** The three texts are joined without a separator, so moving a boundary between them is
      invisible to the cache: the second request is served the lists of the first. */
  lemma MovedBoundaryHits(a: Config, b: Config)
    requires a.CacheKey() == b.CacheKey()
    ensures Loaded(After([a]), b)
         == Lists(Some(a.Topological()), if a.tree == b.tree then Some(a.Precut()) else None)
  {
    hide Hash, Draw;
    assert [a][..0] == [];
    assert After([a]) == Saved(After([]), a);
  }

  /** A digit moved from the cuts to the name: different selections, one key. The second request
      is served the event that its own cuts reject. */
  lemma MovedDigitServesOthers()
    ensures var a, b := Config([0x6e], [0x31, 0x33], [0x74], 1, k => true, k => true),
                        Config([0x6e, 0x31], [0x33], [0x74], 1, k => true, k => false);
      a.CacheKey() == b.CacheKey() && Loaded(After([a]), b) != Fresh(b)
  {
    var a := Config([0x6e], [0x31, 0x33], [0x74], 1, k => true, k => true);
    var b := Config([0x6e, 0x31], [0x33], [0x74], 1, k => true, k => false);
    assert a.CacheKey() == b.CacheKey() == [0x6e, 0x31, 0x33, 0x74];
    MovedBoundaryHits(a, b);
    assert 0 in Draw(1, a.stage1) && 0 !in Draw(1, b.stage1) by {
      DrawMeaning(1, a.stage1);
      DrawMeaning(1, b.stage1);
    }
  }
}
