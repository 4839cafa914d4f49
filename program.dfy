/**
 * A Picus program is a list of modules. Merging another program appends its
 * modules; a module whose name is already taken is renamed with a numeric
 * suffix and the calls inside the appended modules follow the renaming.
 */
module Program {
  import opened Wrappers
  import opened Names

  /** Statements are calls, which name a module, or anything else. */
  datatype PicusStmt = Call(callee: string, args: nat) | Other(code: nat)

  datatype Module = Module(name: string, stmts: seq<PicusStmt>)

  /** `module_names`. */
  function ModuleNames(ms: seq<Module>): set<string>
  {
    set m | m in ms :: m.name
  }

  /** No two modules share a name. */
  predicate UniqueNames(ms: seq<Module>)
  {
    forall i, j :: 0 <= i < |ms| && 0 <= j < |ms| && i != j ==> ms[i].name != ms[j].name
  }

  /** A call whose callee was renamed now calls the new name. */
  function RedirectStmt(s: PicusStmt, renames: map<string, string>): (r: PicusStmt)
    ensures s.Call? && s.callee in renames ==> r == Call(renames[s.callee], s.args)
    ensures !(s.Call? && s.callee in renames) ==> r == s
  {
    if s.Call? && s.callee in renames then Call(renames[s.callee], s.args) else s
  }

  function RedirectModule(m: Module, renames: map<string, string>): (r: Module)
    ensures r.name == m.name && |r.stmts| == |m.stmts|
    ensures forall i :: 0 <= i < |m.stmts| ==> r.stmts[i] == RedirectStmt(m.stmts[i], renames)
  {
    Module(m.name, seq(|m.stmts|, i requires 0 <= i < |m.stmts| => RedirectStmt(m.stmts[i], renames)))
  }

  /** The calls of a redirected module never name a renamed module under its old name. */
  lemma RedirectedCallsAvoidOldNames(m: Module, renames: map<string, string>)
    requires forall n :: n in renames ==> renames[n] !in renames
    ensures forall i :: 0 <= i < |m.stmts| && RedirectModule(m, renames).stmts[i].Call? ==>
      RedirectModule(m, renames).stmts[i].callee !in renames
  {
  }

  /** The renaming of colliding modules, as written: the first `name{i}` that is not itself a collision. */
  ghost predicate AsWrittenChoice(name: string, collisions: set<string>, r: string)
  {
    exists k: nat :: r == Suffixed(name, k) && r !in collisions &&
                     forall j: nat :: j < k ==> Suffixed(name, j) in collisions
  }

  method RenameAsWritten(name: string, collisions: set<string>) returns (r: string)
    ensures AsWrittenChoice(name, collisions, r)
  {
    var k := FirstFreeSuffix(name, 0, collisions);
    r := Suffixed(name, k);
  }

  /**
   * With `a` and `a0` in this program and `a` in the other, the only collision
   * is `a`, and the name chosen as written is `a0`, which this program already uses.
   */
  lemma MergeAsWrittenDuplicates(r: string)
    requires AsWrittenChoice("a", ModuleNames([Module("a", []), Module("a0", [])]) * ModuleNames([Module("a", [])]), r)
    ensures r == "a0" && r in ModuleNames([Module("a", []), Module("a0", [])])
  {
    var self := [Module("a", []), Module("a0", [])];
    var other := [Module("a", [])];
    assert self[1].name == "a0";
    assert ModuleNames(self) == {"a", "a0"};
    assert ModuleNames(other) == {"a"};
    var collisions := ModuleNames(self) * ModuleNames(other);
    assert collisions == {"a"};
    assert Suffixed("a", 0) == "a0";
    assert Suffixed("a", 0) !in collisions;
  }

  /** A colliding module's new name: its old name followed by a decimal suffix. */
  predicate SuffixOf(newName: string, name: string)
  {
    |newName| > |name| && newName[..|name|] == name
  }

  /** The renaming loop's state after the first `i` modules. */
  ghost predicate RenamedUpTo(other: seq<Module>, collisions: set<string>, used: set<string>, inUse: set<string>,
                              renamed: seq<Module>, renames: map<string, string>, i: nat)
  {
    i <= |other| && |renamed| == i && used <= inUse &&
    (forall k :: 0 <= k < i ==> renamed[k].stmts == other[k].stmts) &&
    (forall k :: 0 <= k < i && other[k].name !in collisions ==> renamed[k] == other[k]) &&
    (forall k :: 0 <= k < i && other[k].name in collisions ==>
      renamed[k].name !in used && renamed[k].name in inUse && SuffixOf(renamed[k].name, other[k].name)) &&
    (forall k, l :: (0 <= k < i && 0 <= l < i && k != l && other[k].name in collisions &&
      other[l].name in collisions) ==> renamed[k].name != renamed[l].name) &&
    (forall n :: n in renames ==> n in collisions) &&
    (UniqueNames(other) ==> forall k :: 0 <= k < i && other[k].name in collisions ==>
      other[k].name in renames && renames[other[k].name] == renamed[k].name)
  }

  /** A module whose name does not collide is kept as it is. */
  lemma KeepStep(other: seq<Module>, collisions: set<string>, used: set<string>, inUse: set<string>,
                 renamed: seq<Module>, renames: map<string, string>, i: nat)
    requires i < |other| && other[i].name !in collisions
    requires RenamedUpTo(other, collisions, used, inUse, renamed, renames, i)
    ensures RenamedUpTo(other, collisions, used, inUse, renamed + [other[i]], renames, i + 1)
  {
    var renamed' := renamed + [other[i]];
    assert forall k :: 0 <= k < i ==> renamed'[k] == renamed[k];
  }

  /** A colliding module takes `newName`, which is not yet in use and extends its name. */
  lemma RenameStep(other: seq<Module>, collisions: set<string>, used: set<string>, inUse: set<string>,
                   renamed: seq<Module>, renames: map<string, string>, i: nat, newName: string)
    requires i < |other| && other[i].name in collisions
    requires newName !in inUse && SuffixOf(newName, other[i].name)
    requires RenamedUpTo(other, collisions, used, inUse, renamed, renames, i)
    ensures RenamedUpTo(other, collisions, used, inUse + {newName}, renamed + [Module(newName, other[i].stmts)],
                        renames[other[i].name := newName], i + 1)
  {
    var renamed' := renamed + [Module(newName, other[i].stmts)];
    var renames' := renames[other[i].name := newName];
    assert forall k :: 0 <= k < i ==> renamed'[k] == renamed[k];
    forall k, l | 0 <= k < i + 1 && 0 <= l < i + 1 && k != l && other[k].name in collisions && other[l].name in collisions
      ensures renamed'[k].name != renamed'[l].name
    {
      if k == i {
        assert renamed[l].name in inUse;
      } else if l == i {
        assert renamed[k].name in inUse;
      }
    }
    if UniqueNames(other) {
      forall k | 0 <= k < i + 1 && other[k].name in collisions
        ensures other[k].name in renames' && renames'[other[k].name] == renamed'[k].name
      {
        if k < i {
          assert other[k].name != other[i].name;
        }
      }
    }
  }

  /**
   * The renaming of the other program's modules: a module whose name is a
   * collision takes the first `name{i}` not yet in use anywhere.
   */
  method RenameModules(other: seq<Module>, collisions: set<string>, used: set<string>)
    returns (renamed: seq<Module>, renames: map<string, string>)
    ensures |renamed| == |other|
    ensures forall i :: 0 <= i < |other| ==> renamed[i].stmts == other[i].stmts
    ensures forall i :: 0 <= i < |other| && other[i].name !in collisions ==> renamed[i] == other[i]
    ensures forall i :: 0 <= i < |other| && other[i].name in collisions ==>
      renamed[i].name !in used && SuffixOf(renamed[i].name, other[i].name)
    ensures forall i, j :: (0 <= i < |other| && 0 <= j < |other| && i != j && other[i].name in collisions &&
      other[j].name in collisions) ==> renamed[i].name != renamed[j].name
    ensures forall n :: n in renames ==> n in collisions
    ensures UniqueNames(other) ==> forall i :: 0 <= i < |other| && other[i].name in collisions ==>
      other[i].name in renames && renames[other[i].name] == renamed[i].name
  {
    renamed := [];
    renames := map[];
    var inUse := used;
    var i := 0;
    while i < |other|
      invariant RenamedUpTo(other, collisions, used, inUse, renamed, renames, i)
    {
      var m := other[i];
      if m.name !in collisions {
        KeepStep(other, collisions, used, inUse, renamed, renames, i);
        renamed := renamed + [m];
      } else {
        var k := FirstFreeSuffix(m.name, 0, inUse);
        var newName := Suffixed(m.name, k);
        RenameStep(other, collisions, used, inUse, renamed, renames, i, newName);
        renames := renames[m.name := newName];
        renamed := renamed + [Module(newName, m.stmts)];
        inUse := inUse + {newName};
      }
      i := i + 1;
    }
  }

  class Program {
    var modules: seq<Module>

    constructor (modules: seq<Module>)
      ensures this.modules == modules
    {
      this.modules := modules;
    }

    /**
     * `merge`: appends the other program's modules after this program's own,
     * renaming colliding ones to names used nowhere and redirecting the calls
     * of the appended modules.
     */
    method Merge(other: seq<Module>) returns (r: Result<()>)
      modifies this
      ensures r.Ok?
      ensures |modules| == |old(modules)| + |other| && modules[..|old(modules)|] == old(modules)
      ensures forall i :: 0 <= i < |other| ==> Appended(old(modules), other, modules, i)
      ensures UniqueNames(other) ==> CallsFollow(old(modules), other, modules)
      ensures UniqueNames(old(modules)) && UniqueNames(other) ==> UniqueNames(modules)
    {
      var oldModules := modules;
      var collisions := ModuleNames(modules) * ModuleNames(other);
      var used := ModuleNames(modules) + ModuleNames(other);
      var renamed, renames := RenameModules(other, collisions, used);
      var appended := seq(|renamed|, i requires 0 <= i < |renamed| => RedirectModule(renamed[i], renames));
      MergeFacts(oldModules, other, collisions, used, renamed, renames, appended);
      modules := modules + appended;
      r := Ok(());
    }
  }

  /** What `merge` establishes about the appended modules, given the renaming's contract. */
  lemma MergeFacts(self: seq<Module>, other: seq<Module>, collisions: set<string>, used: set<string>,
                   renamed: seq<Module>, renames: map<string, string>, appended: seq<Module>)
    requires collisions == ModuleNames(self) * ModuleNames(other) && used == ModuleNames(self) + ModuleNames(other)
    requires |renamed| == |other|
    requires forall i :: 0 <= i < |other| ==> renamed[i].stmts == other[i].stmts
    requires forall i :: 0 <= i < |other| && other[i].name !in collisions ==> renamed[i] == other[i]
    requires forall i :: 0 <= i < |other| && other[i].name in collisions ==>
      renamed[i].name !in used && SuffixOf(renamed[i].name, other[i].name)
    requires forall i, j :: (0 <= i < |other| && 0 <= j < |other| && i != j && other[i].name in collisions &&
      other[j].name in collisions) ==> renamed[i].name != renamed[j].name
    requires forall n :: n in renames ==> n in collisions
    requires UniqueNames(other) ==> forall i :: 0 <= i < |other| && other[i].name in collisions ==>
      other[i].name in renames && renames[other[i].name] == renamed[i].name
    requires |appended| == |renamed| && forall i :: 0 <= i < |renamed| ==> appended[i] == RedirectModule(renamed[i], renames)
    ensures forall i :: 0 <= i < |other| ==> Appended(self, other, self + appended, i)
    ensures UniqueNames(other) ==> CallsFollow(self, other, self + appended)
    ensures UniqueNames(self) && UniqueNames(other) ==> UniqueNames(self + appended)
  {
    var modules := self + appended;
    assert modules[..|self|] == self;
    assert forall k :: 0 <= k < |other| ==> modules[|self| + k] == appended[k];
    forall i | 0 <= i < |other|
      ensures Appended(self, other, modules, i)
    {
      AppendedModule(self, other, collisions, renamed[i], renames, i);
    }
    if UniqueNames(other) {
      CallsAfterMerge(self, other, collisions, renamed, renames, appended);
    }
    if UniqueNames(self) && UniqueNames(other) {
      forall i, j | 0 <= i < |modules| && 0 <= j < |modules| && i != j
        ensures modules[i].name != modules[j].name
      {
        NamesAfterMerge(self, other, collisions, used, renamed, modules, i, j);
      }
    }
  }

  /**
   * The module appended for `other[i]`: its own name when free, else a fresh
   * suffixed name used by neither program; its statements are the original
   * ones, except calls to colliding names.
   */
  ghost predicate Appended(self: seq<Module>, other: seq<Module>, modules: seq<Module>, i: nat)
    requires i < |other| && |modules| == |self| + |other|
  {
    var m := modules[|self| + i];
    var collisions := ModuleNames(self) * ModuleNames(other);
    (other[i].name !in collisions ==> m.name == other[i].name) &&
    (other[i].name in collisions ==>
       m.name !in ModuleNames(self) + ModuleNames(other) && SuffixOf(m.name, other[i].name)) &&
    |m.stmts| == |other[i].stmts| &&
    forall s :: 0 <= s < |m.stmts| && !(other[i].stmts[s].Call? && other[i].stmts[s].callee in collisions) ==>
      m.stmts[s] == other[i].stmts[s]
  }

  /** A call in an appended module to a renamed module calls it under its new name. */
  ghost predicate CallsFollow(self: seq<Module>, other: seq<Module>, modules: seq<Module>)
    requires |modules| == |self| + |other|
  {
    forall i, s, j :: (0 <= i < |other| && 0 <= s < |other[i].stmts| && 0 <= j < |other| &&
      other[i].stmts[s].Call? && other[i].stmts[s].callee == other[j].name && other[j].name in ModuleNames(self)) ==>
      s < |modules[|self| + i].stmts| &&
      modules[|self| + i].stmts[s] == Call(modules[|self| + j].name, other[i].stmts[s].args)
  }

  lemma AppendedModule(self: seq<Module>, other: seq<Module>, collisions: set<string>, renamed: Module,
                       renames: map<string, string>, i: nat)
    requires collisions == ModuleNames(self) * ModuleNames(other) && i < |other|
    requires renamed.stmts == other[i].stmts
    requires other[i].name !in collisions ==> renamed == other[i]
    requires other[i].name in collisions ==>
      renamed.name !in ModuleNames(self) + ModuleNames(other) && SuffixOf(renamed.name, other[i].name)
    requires forall n :: n in renames ==> n in collisions
    ensures forall modules :: |modules| == |self| + |other| && modules[|self| + i] == RedirectModule(renamed, renames) ==>
      Appended(self, other, modules, i)
  {
  }

  lemma CallsAfterMerge(self: seq<Module>, other: seq<Module>, collisions: set<string>, renamed: seq<Module>,
                        renames: map<string, string>, appended: seq<Module>)
    requires UniqueNames(other) && collisions == ModuleNames(self) * ModuleNames(other)
    requires |renamed| == |other| && |appended| == |other|
    requires forall i :: 0 <= i < |other| ==> renamed[i].stmts == other[i].stmts
    requires forall i :: 0 <= i < |other| && other[i].name !in collisions ==> renamed[i] == other[i]
    requires forall i :: 0 <= i < |other| && other[i].name in collisions ==>
      other[i].name in renames && renames[other[i].name] == renamed[i].name
    requires forall i :: 0 <= i < |other| ==> appended[i] == RedirectModule(renamed[i], renames)
    ensures CallsFollow(self, other, self + appended)
  {
    var modules := self + appended;
    forall i, s, j | 0 <= i < |other| && 0 <= s < |other[i].stmts| && 0 <= j < |other| &&
      other[i].stmts[s].Call? && other[i].stmts[s].callee == other[j].name && other[j].name in ModuleNames(self)
      ensures s < |modules[|self| + i].stmts| &&
        modules[|self| + i].stmts[s] == Call(modules[|self| + j].name, other[i].stmts[s].args)
    {
      assert other[j] in other;
      assert other[j].name in collisions;
      assert modules[|self| + i] == appended[i] && modules[|self| + j] == appended[j];
    }
  }

  lemma NamesAfterMerge(self: seq<Module>, other: seq<Module>, collisions: set<string>, used: set<string>,
                        renamed: seq<Module>, modules: seq<Module>, i: nat, j: nat)
    requires UniqueNames(self) && UniqueNames(other)
    requires collisions == ModuleNames(self) * ModuleNames(other) && used == ModuleNames(self) + ModuleNames(other)
    requires |renamed| == |other| && |modules| == |self| + |other| && modules[..|self|] == self
    requires forall k :: 0 <= k < |other| ==> modules[|self| + k].name == renamed[k].name
    requires forall k :: 0 <= k < |other| && other[k].name !in collisions ==> renamed[k] == other[k]
    requires forall k :: 0 <= k < |other| && other[k].name in collisions ==> renamed[k].name !in used
    requires forall k, l :: (0 <= k < |other| && 0 <= l < |other| && k != l && other[k].name in collisions &&
      other[l].name in collisions) ==> renamed[k].name != renamed[l].name
    requires i < |modules| && j < |modules| && i != j
    ensures modules[i].name != modules[j].name
  {
    if i < |self| && j < |self| {
      assert modules[i] == self[i] && modules[j] == self[j];
    } else if i < |self| {
      NameAgainstSelf(self, other, collisions, used, renamed, modules, i, j - |self|);
    } else if j < |self| {
      NameAgainstSelf(self, other, collisions, used, renamed, modules, j, i - |self|);
    } else {
      var k, l := i - |self|, j - |self|;
      assert other[k] in other && other[l] in other;
      assert other[k].name in used && other[l].name in used;
    }
  }

  lemma NameAgainstSelf(self: seq<Module>, other: seq<Module>, collisions: set<string>, used: set<string>,
                        renamed: seq<Module>, modules: seq<Module>, i: nat, k: nat)
    requires collisions == ModuleNames(self) * ModuleNames(other) && used == ModuleNames(self) + ModuleNames(other)
    requires |renamed| == |other| && |modules| == |self| + |other| && modules[..|self|] == self
    requires forall k :: 0 <= k < |other| ==> modules[|self| + k].name == renamed[k].name
    requires forall k :: 0 <= k < |other| && other[k].name !in collisions ==> renamed[k] == other[k]
    requires forall k :: 0 <= k < |other| && other[k].name in collisions ==> renamed[k].name !in used
    requires i < |self| && k < |other|
    ensures modules[i].name != modules[|self| + k].name
  {
    assert modules[i] == self[i];
    assert self[i] in self && other[k] in other;
    assert self[i].name in ModuleNames(self);
    assert other[k].name in ModuleNames(other);
  }
}
