/** The registry, a tree of named entries (combase/registry.cpp). */
module Registry {

  import opened Bytes
  import opened Errno
  import opened PathName

  class CDirEntry {
    const m_strName: string
    var m_pParent: CDirEntry?
    var m_mapChilds: map<string, CDirEntry>
    // the names on the way from the root
    ghost const path: seq<string>

    constructor (strName: string, ghost where: seq<string>)
      ensures m_strName == strName && m_pParent == null && m_mapChilds == map[] && path == where
    {
      m_strName, m_pParent, m_mapChilds, path := strName, null, map[], where;
    }

    function Child(strName: string): CDirEntry?
      reads this
    {
      if |strName| <= REG_MAX_NAME && strName in m_mapChilds then m_mapChilds[strName] else null
    }

    method GetChild(strName: string) returns (pRet: CDirEntry?)
      ensures pRet == Child(strName)
    {
      if |strName| > REG_MAX_NAME {
        return null;
      }
      pRet := null;
      if strName in m_mapChilds {
        pRet := m_mapChilds[strName];
      }
    }

    method AddChild(pEnt: CDirEntry) returns (ret: int)
      modifies this`m_mapChilds, pEnt`m_pParent
      ensures ret == if pEnt.m_strName in old(m_mapChilds) then -EEXIST else STATUS_SUCCESS
      ensures if ret == STATUS_SUCCESS then
                m_mapChilds == old(m_mapChilds)[pEnt.m_strName := pEnt] && pEnt.m_pParent == this
              else
                m_mapChilds == old(m_mapChilds) && pEnt.m_pParent == old(pEnt.m_pParent)
    {
      if pEnt.m_strName in m_mapChilds {
        return -EEXIST;
      }
      pEnt.m_pParent := this;
      m_mapChilds := m_mapChilds[pEnt.m_strName := pEnt];
      return STATUS_SUCCESS;
    }

    /** A new entry of that name. */
    method AddNewChild(strName: string) returns (ret: int, ghost pEnt: CDirEntry)
      modifies this`m_mapChilds
      ensures ret == if |strName| > REG_MAX_NAME then -EINVAL else if strName in old(m_mapChilds) then -EEXIST else STATUS_SUCCESS
      ensures if ret == STATUS_SUCCESS then
                && fresh(pEnt) && m_mapChilds == old(m_mapChilds)[strName := pEnt]
                && pEnt.m_strName == strName && pEnt.m_pParent == this && pEnt.m_mapChilds == map[]
                && pEnt.path == path + [strName]
              else
                m_mapChilds == old(m_mapChilds)
    {
      if |strName| > REG_MAX_NAME {
        return -EINVAL, this;
      }
      var pNew := new CDirEntry(strName, path + [strName]);
      ret := AddChild(pNew);
      pEnt := pNew;
    }

    method RemoveChild(strName: string) returns (ret: int)
      modifies this`m_mapChilds
      ensures ret == if |strName| > REG_MAX_NAME then -EINVAL else if strName in old(m_mapChilds) then STATUS_SUCCESS else -ENOENT
      ensures m_mapChilds == if ret == STATUS_SUCCESS then old(m_mapChilds) - {strName} else old(m_mapChilds)
    {
      ret := -ENOENT;
      if |strName| > REG_MAX_NAME {
        return -EINVAL;
      }
      if strName in m_mapChilds {
        m_mapChilds := m_mapChilds - {strName};
        ret := STATUS_SUCCESS;
      }
    }
  }

  /** All entries of a tree with their children. */
  type Tree = map<CDirEntry, map<string, CDirEntry>>

  /** Everything in `before` still is in `after`, and every further child is a further entry. */
  ghost predicate Extends(before: Tree, after: Tree) {
    && before.Keys <= after.Keys
    && (forall d, name :: d in before && name in before[d] ==> name in after[d] && after[d][name] == before[d][name])
    && (forall d, name :: d in before && name in after[d] && name !in before[d] ==> after[d][name] !in before)
  }

  class CRegistry {
    const m_pRootDir: CDirEntry
    var m_pCurDir: CDirEntry
    // all entries of the tree
    ghost var nodes: set<CDirEntry>

    constructor ()
      ensures Valid() && fresh(nodes) && m_pCurDir == m_pRootDir && nodes == {m_pRootDir} && m_pRootDir.m_mapChilds == map[]
    {
      var root := new CDirEntry("/", []);
      m_pRootDir, m_pCurDir, nodes := root, root, {root};
    }

    /** `c` hangs under `d` by the name it has itself. */
    ghost predicate Hangs(d: CDirEntry, name: string, c: CDirEntry)
      reads this, c
    {
      && c in nodes && c.m_pParent == d && c.m_strName == name && c.path == d.path + [name]
      && 1 <= |name| <= REG_MAX_NAME
    }

    /** Parent links, names and map entries agree, in both directions. */
    ghost predicate Linked(d: CDirEntry)
      reads this, nodes, d
    {
      && (forall name :: name in d.m_mapChilds ==> d.m_mapChilds[name] in nodes && Hangs(d, name, d.m_mapChilds[name]))
      && if d == m_pRootDir then d.m_pParent == null && d.path == []
         else
           && d.m_pParent != null && d.m_pParent in nodes
           && d.m_strName in d.m_pParent.m_mapChilds && d.m_pParent.m_mapChilds[d.m_strName] == d
    }

    ghost predicate Valid()
      reads this, nodes
    {
      m_pRootDir in nodes && m_pCurDir in nodes && forall d :: d in nodes ==> Linked(d)
    }

    ghost function Snapshot(): (t: Tree)
      reads this`nodes, nodes
      ensures t.Keys == nodes
    {
      map d | d in nodes :: d.m_mapChilds
    }

    lemma ParentPath(d: CDirEntry)
      requires Valid() && d in nodes && d != m_pRootDir
      ensures d.m_pParent in nodes && Hangs(d.m_pParent, d.m_strName, d)
    {
      assert Linked(d);
      assert Linked(d.m_pParent);
    }

    /** A path belongs to one entry. */
    lemma {:induction false} SamePath(d: CDirEntry, e: CDirEntry)
      requires Valid() && d in nodes && e in nodes && d.path == e.path
      ensures d == e
      decreases |d.path|
    {
      assert Linked(d) && Linked(e);
      if d != m_pRootDir {
        ParentPath(d);
      }
      if e != m_pRootDir {
        ParentPath(e);
      }
      if d != m_pRootDir && e != m_pRootDir {
        Halves(d.m_pParent.path, [d.m_strName]);
        Halves(e.m_pParent.path, [e.m_strName]);
        assert |d.m_pParent.path| == |e.m_pParent.path|;
        assert d.path[|d.path| - 1] == e.path[|d.path| - 1];
        SamePath(d.m_pParent, e.m_pParent);
      }
    }

    // ---------- Looking up ----------

    /** The entry that the components lead to from `d`. */
    ghost function Walk(d: CDirEntry, comps: seq<string>): (e: CDirEntry?)
      requires Valid() && d in nodes
      reads this, nodes
      ensures e != null ==> e in nodes
      decreases |comps|
    {
      if comps == [] then d
      else
        var next := Next(d, comps[0]);
        if next == null then null else Walk(next, comps[1..])
    }

    ghost function Next(d: CDirEntry, comp: string): (e: CDirEntry?)
      requires Valid() && d in nodes
      reads this, nodes
      ensures e != null ==> e in nodes
    {
      assert Linked(d);
      if comp == "." then d
      else if comp == ".." then if d == m_pRootDir then null else d.m_pParent
      else if comp == "/" then m_pRootDir
      else d.Child(comp)
    }

    /** An entry of the tree is there. */
    ghost predicate Stands(t: Goal)
      reads this, nodes
    {
      t.At? && exists e: CDirEntry :: e in nodes && e.path == t.names
    }

    /** Every component on the way leads to an entry. */
    ghost predicate Leads(d: CDirEntry, comps: seq<string>)
      reads this, nodes, d
    {
      forall k :: 0 <= k <= |comps| ==> Stands(Resolve(d.path, comps[..k]))
    }

    lemma NextResolves(d: CDirEntry, comp: string)
      requires Valid() && d in nodes
      ensures var next, t := Next(d, comp), Resolve(d.path, [comp]);
              if next != null then t == At(next.path) else !Stands(t)
    {
      assert Linked(d) && Linked(m_pRootDir);
      assert [comp][1..] == [];
      if comp != "." && comp != ".." && comp != "/" {
        NoOtherChild(d, comp);
      } else if comp == ".." && d != m_pRootDir {
        ParentPath(d);
        Halves(d.m_pParent.path, [d.m_strName]);
      }
    }

    /** Only a child has the path of a child. */
    lemma NoOtherChild(d: CDirEntry, name: string)
      requires Valid() && d in nodes
      ensures d.Child(name) != null ==> d.Child(name).path == d.path + [name]
      ensures Stands(At(d.path + [name])) ==> d.Child(name) != null
    {
      assert Linked(d);
      if e: CDirEntry :| e in nodes && e.path == d.path + [name] {
        assert Linked(e);
        ParentPath(e);
        Halves(d.path, [name]);
        Halves(e.m_pParent.path, [e.m_strName]);
        assert |e.m_pParent.path| == |d.path|;
        assert e.path[|d.path|] == name == e.m_strName;
        SamePath(e.m_pParent, d);
      }
    }

    /** The components lead to an entry exactly if every one of them does, and then to the entry at the
        path that they resolve to. */
    lemma {:induction false} WalkResolves(d: CDirEntry, comps: seq<string>)
      requires Valid() && d in nodes
      ensures Walk(d, comps) != null <==> Leads(d, comps)
      ensures Walk(d, comps) != null ==> Resolve(d.path, comps) == At(Walk(d, comps).path)
      decreases |comps|
    {
      hide CRegistry.Valid, CRegistry.Next, CRegistry.Leads, CRegistry.Stands, Resolve;
      if comps == [] {
        LeadsNowhereElse(d);
      } else {
        var next := Next(d, comps[0]);
        assert comps[..1] == [comps[0]];
        NextResolves(d, comps[0]);
        if next != null {
          LeadsStep(d, next, comps);
          WalkResolves(next, comps[1..]);
        } else {
          StopsHere(d, comps);
        }
      }
    }

    lemma LeadsNowhereElse(d: CDirEntry)
      requires Valid() && d in nodes
      ensures Leads(d, []) && Resolve(d.path, []) == At(d.path)
    {
    }

    lemma StopsHere(d: CDirEntry, comps: seq<string>)
      requires comps != [] && !Stands(Resolve(d.path, comps[..1]))
      ensures !Leads(d, comps)
    {
    }

    lemma LeadsStep(d: CDirEntry, next: CDirEntry, comps: seq<string>)
      requires d in nodes && next in nodes && comps != [] && Resolve(d.path, comps[..1]) == At(next.path)
      ensures Leads(d, comps) <==> Leads(next, comps[1..])
      ensures Resolve(d.path, comps) == Resolve(next.path, comps[1..])
    {
      hide Resolve;
      forall k | 0 <= k < |comps| ensures Resolve(d.path, comps[..k + 1]) == Resolve(next.path, comps[1..][..k]) {
        ResolveFirst(d.path, comps, k);
      }
      assert comps[..|comps| - 1 + 1] == comps && comps[1..][..|comps| - 1] == comps[1..];
      assert Stands(Resolve(d.path, comps[..0])) by {
        LeadsFrom(d, comps);
      }
      if Leads(d, comps) {
        forall k | 0 <= k <= |comps[1..]| ensures Stands(Resolve(next.path, comps[1..][..k])) {
          assert Stands(Resolve(d.path, comps[..k + 1]));
        }
      }
      if Leads(next, comps[1..]) {
        forall k | 0 <= k <= |comps| ensures Stands(Resolve(d.path, comps[..k])) {
          if k > 0 {
            assert Stands(Resolve(next.path, comps[1..][..k - 1]));
            assert Resolve(d.path, comps[..k - 1 + 1]) == Resolve(next.path, comps[1..][..k - 1]);
          }
        }
      }
    }

    lemma LeadsFrom(d: CDirEntry, comps: seq<string>)
      requires d in nodes
      ensures Stands(Resolve(d.path, comps[..0]))
    {
    }

    /** Leads where resolving the components, name by name, leads from the current directory. */
    method GetEntry(strDir: string) returns (ret: int, pDir: CDirEntry?)
      requires Valid()
      ensures 1 <= |strDir| <= REG_MAX_PATH ==> pDir == Walk(m_pCurDir, Components(strDir))
      ensures 1 <= |strDir| <= REG_MAX_PATH ==> (pDir != null <==> Leads(m_pCurDir, Components(strDir)))
      ensures pDir != null ==> pDir in nodes && Resolve(m_pCurDir.path, Components(strDir)) == At(pDir.path)
      ensures ret == if |strDir| == 0 || |strDir| > REG_MAX_PATH then -EINVAL else if pDir == null then -ENOENT else STATUS_SUCCESS
    {
      var vecComp;
      ret, vecComp := Namei(strDir);
      if ret < 0 {
        return ret, null;
      }
      WalkResolves(m_pCurDir, vecComp);
      hide CRegistry.Valid, CRegistry.Walk, CRegistry.Leads, Resolve;
      pDir := Follow(vecComp);
      ret := if pDir == null then -ENOENT else STATUS_SUCCESS;
    }

    /** The loop over the components. */
    method Follow(vecComp: seq<string>) returns (pDir: CDirEntry?)
      requires Valid()
      ensures pDir == Walk(m_pCurDir, vecComp)
    {
      hide CRegistry.Valid, CRegistry.Linked, CRegistry.Walk, CRegistry.Next;
      CurInTree();
      var pCurDir := m_pCurDir;
      var i := 0;
      assert vecComp[0..] == vecComp;
      while i < |vecComp|
        invariant 0 <= i <= |vecComp| && pCurDir in nodes
        invariant Walk(m_pCurDir, vecComp) == Walk(pCurDir, vecComp[i..])
      {
        WalkStep(pCurDir, vecComp, i);
        var pNext := Enter(pCurDir, vecComp[i]);
        if pNext == null {
          return null;
        }
        pCurDir := pNext;
        i := i + 1;
      }
      WalkNothing(pCurDir, vecComp[i..]);
      return pCurDir;
    }

    lemma WalkNothing(d: CDirEntry, comps: seq<string>)
      requires Valid() && d in nodes && comps == []
      ensures Walk(d, comps) == d
    {
    }

    lemma WalkStep(d: CDirEntry, comps: seq<string>, i: nat)
      requires Valid() && d in nodes && i < |comps|
      ensures var next := Next(d, comps[i]);
              Walk(d, comps[i..]) == if next == null then null else Walk(next, comps[i + 1..])
    {
      hide Next;
      assert comps[i..][1..] == comps[i + 1..];
    }

    /** One round of the loop. */
    method Enter(pCurDir: CDirEntry, strComp: string) returns (pNext: CDirEntry?)
      requires Valid() && pCurDir in nodes
      ensures pNext == Next(pCurDir, strComp)
    {
      assert Linked(pCurDir);
      if strComp == "." {
        pNext := pCurDir;
      } else if strComp == ".." {
        pNext := null;
        if pCurDir != m_pRootDir {
          pNext := pCurDir.m_pParent;
        }
      } else if strComp == "/" {
        pNext := m_pRootDir;
      } else {
        pNext := pCurDir.GetChild(strComp);
      }
    }

    /** The current directory moves to the entry that the path leads to; two dots are its parent. */
    method ChangeDir(strDir: string) returns (ret: int)
      requires Valid()
      modifies this`m_pCurDir
      ensures Valid()
      ensures if 1 <= |strDir| <= REG_MAX_PATH && old(Walk(m_pCurDir, Components(strDir))) != null then
                ret == STATUS_SUCCESS && m_pCurDir == old(Walk(m_pCurDir, Components(strDir)))
              else ret < 0 && m_pCurDir == old(m_pCurDir)
      ensures ret == if |strDir| == 0 || |strDir| > REG_MAX_PATH then -EINVAL
                     else if old(Leads(m_pCurDir, Components(strDir))) then STATUS_SUCCESS else -ENOENT
      ensures ret == STATUS_SUCCESS ==> Resolve(old(m_pCurDir.path), Components(strDir)) == At(m_pCurDir.path)
      ensures strDir == "." ==> ret == STATUS_SUCCESS && m_pCurDir == old(m_pCurDir)
      ensures strDir == ".." ==>
                if old(m_pCurDir) == m_pRootDir then ret == -ENOENT
                else ret == STATUS_SUCCESS && m_pCurDir.path == old(m_pCurDir.path)[..|old(m_pCurDir.path)| - 1]
    {
      Dots(m_pCurDir);
      var pDir;
      ret, pDir := GetEntry(strDir);
      hide CRegistry.Valid, CRegistry.Walk, CRegistry.Leads, Resolve, Components;
      if ret < 0 {
        return;
      }
      SetCurDir(pDir);
    }

    lemma Dots(d: CDirEntry)
      requires Valid() && d in nodes
      ensures Walk(d, Components(".")) == d
      ensures var up := Walk(d, Components(".."));
              if d == m_pRootDir then up == null
              else up != null && d.path != [] && up.path == d.path[..|d.path| - 1]
    {
      DotComponents();
      NextResolves(d, "..");
      assert [".."][1..] == [] && ["."][1..] == [];
    }

    /** The names from the root down to `d`. */
    method GetFullPath(d: CDirEntry) returns (strPath: string)
      requires Valid() && d in nodes
      ensures strPath == FullPath(d.path)
    {
      strPath := "";
      var pde := d;
      ghost var below: seq<string> := [];
      assert pde.path + below == d.path;
      while pde.m_pParent != null
        invariant pde in nodes && pde.path + below == d.path && strPath == Join(below)
        invariant strPath == "" <==> below == []
        decreases |pde.path|
      {
        assert Linked(pde);
        ParentPath(pde);
        var strName := pde.m_strName;
        Assoc(pde.m_pParent.path, [strName], below);
        assert ([strName] + below)[1..] == below;
        if |strPath| > 0 {
          strName := strName + "/";
        }
        strPath := strName + strPath;
        below := [pde.m_strName] + below;
        pde := pde.m_pParent;
      }
      assert Linked(pde);
      assert below == d.path;
      if |strPath| > 0 {
        strPath := "/" + strPath;
      } else {
        strPath := "/";
      }
    }

    // ---------- Full paths lead back ----------

    lemma {:induction false} WalkAppend(d: CDirEntry, comps: seq<string>, last: string)
      requires Valid() && d in nodes
      ensures Walk(d, comps + [last]) == if Walk(d, comps) == null then null else Next(Walk(d, comps), last)
      decreases |comps|
    {
      if comps == [] {
        assert comps + [last] == [last];
        assert [last][1..] == [];
      } else {
        assert (comps + [last])[1..] == comps[1..] + [last];
        var next := Next(d, comps[0]);
        if next != null {
          WalkAppend(next, comps[1..], last);
        }
      }
    }

    lemma {:induction false} WalkDown(d: CDirEntry)
      requires Valid() && d in nodes && AllOrdinary(d.path)
      ensures Walk(m_pRootDir, d.path) == d
      decreases |d.path|
    {
      assert Linked(d);
      if d != m_pRootDir {
        ParentPath(d);
        Halves(d.m_pParent.path, [d.m_strName]);
        assert forall i :: 0 <= i < |d.m_pParent.path| ==> d.path[i] == d.m_pParent.path[i];
        WalkDown(d.m_pParent);
        WalkAppend(m_pRootDir, d.m_pParent.path, d.m_strName);
        assert d.path[|d.path| - 1] == d.m_strName;
      }
    }

    /** From an entry with an ordinary path only such entries are found. */
    lemma {:induction false} WalkStaysOrdinary(d: CDirEntry, comps: seq<string>)
      requires Valid() && d in nodes && AllOrdinary(d.path)
      requires forall i :: 0 <= i < |comps| ==> comps[i] == "/" || (comps[i] != "" && NoSlash(comps[i]))
      ensures Walk(d, comps) != null ==> AllOrdinary(Walk(d, comps).path)
      decreases |comps|
    {
      if comps != [] {
        var next := Next(d, comps[0]);
        assert Linked(d) && Linked(m_pRootDir);
        if next != null {
          if comps[0] == ".." {
            ParentPath(d);
            assert forall i :: 0 <= i < |next.path| ==> next.path[i] == d.path[i];
          }
          WalkStaysOrdinary(next, comps[1..]);
        }
      }
    }

    /** An entry is found again by its full path exactly if all names on the way are ordinary and the
        path is not too long. */
    method FindAgain(d: CDirEntry) returns (ret: int, pDir: CDirEntry?)
      requires Valid() && d in nodes
      ensures ret == STATUS_SUCCESS && pDir == d <==> AllOrdinary(d.path) && |FullPath(d.path)| <= REG_MAX_PATH
      ensures |FullPath(d.path)| <= REG_MAX_PATH ==> pDir == Walk(m_pCurDir, Components(FullPath(d.path)))
    {
      var strPath := GetFullPath(d);
      ret, pDir := GetEntry(strPath);
      if |strPath| <= REG_MAX_PATH {
        if AllOrdinary(d.path) {
          ComponentsOfFullPath(d.path);
          WalkDown(d);
          assert Components(strPath)[1..] == d.path;
        } else {
          assert Linked(m_pRootDir);
          FirstIsRoot(strPath);
        }
      }
    }

    lemma FirstIsRoot(strPath: string)
      requires Valid() && strPath != "" && strPath[0] == '/'
      ensures var e := Walk(m_pCurDir, Components(strPath)); e != null ==> AllOrdinary(e.path)
    {
      assert Linked(m_pRootDir);
      var comps := Components(strPath);
      assert comps[1..] == Segments(strPath);
      WalkStaysOrdinary(m_pRootDir, comps[1..]);
    }

    // ---------- Making directories ----------

    /** A new entry below an entry of the tree. */
    method CreateChild(pParent: CDirEntry, strName: string) returns (ret: int, ghost pEnt: CDirEntry)
      requires Valid() && pParent in nodes && strName != ""
      modifies this`nodes, pParent`m_mapChilds
      ensures Valid()
      ensures ret == if |strName| > REG_MAX_NAME then -EINVAL else if strName in old(pParent.m_mapChilds) then -EEXIST else STATUS_SUCCESS
      ensures if ret == STATUS_SUCCESS then
                && fresh(pEnt) && nodes == old(nodes) + {pEnt}
                && strName !in old(pParent.m_mapChilds) && pParent.m_mapChilds == old(pParent.m_mapChilds)[strName := pEnt]
                && pEnt.m_mapChilds == map[] && pEnt.m_pParent == pParent && Hangs(pParent, strName, pEnt)
              else
                nodes == old(nodes) && pParent.m_mapChilds == old(pParent.m_mapChilds)
    {
      assert Linked(pParent);
      ret, pEnt := pParent.AddNewChild(strName);
      if ret == STATUS_SUCCESS {
        nodes := nodes + {pEnt};
        forall d | d in nodes ensures Linked(d) {
          assert d != pEnt ==> old(Linked(d));
        }
      }
    }

    /** Takes a leaf off the tree. */
    method DropChild(pParent: CDirEntry, strName: string)
      requires Valid() && pParent in nodes && strName in pParent.m_mapChilds
      requires pParent.m_mapChilds[strName].m_mapChilds == map[] && pParent.m_mapChilds[strName] != m_pCurDir
      modifies this`nodes, pParent`m_mapChilds
      ensures Valid() && nodes == old(nodes) - {old(pParent.m_mapChilds[strName])}
      ensures pParent.m_mapChilds == old(pParent.m_mapChilds) - {strName}
    {
      assert Linked(pParent);
      ghost var c := pParent.m_mapChilds[strName];
      assert Linked(c);
      var _ := pParent.RemoveChild(strName);
      nodes := nodes - {c};
      forall d | d in nodes ensures Linked(d) {
        assert old(Linked(d));
      }
    }

    /** Link j of a chain of new entries that hangs below `r`, each the only child of the one before. */
    ghost predicate LinkAt(r: CDirEntry, chain: seq<CDirEntry>, j: nat)
      requires j < |chain|
      reads chain
    {
      && chain[j].m_pParent == (if j == 0 then r else chain[j - 1])
      && chain[j].m_mapChilds == if j + 1 < |chain| then map[chain[j + 1].m_strName := chain[j + 1]] else map[]
    }

    /** The tree is what it was `before`, but for a chain of new entries below `r`. */
    ghost predicate Grown(before: Tree, r: CDirEntry, chain: seq<CDirEntry>)
      reads this, before.Keys, chain
    {
      && nodes == before.Keys + (set c | c in chain)
      && (forall c :: c in chain ==> c !in before)
      && (forall d :: d in before ==> d == r || d.m_mapChilds == before[d])
      && r in before
      && (if chain == [] then r.m_mapChilds == before[r]
          else chain[0].m_strName !in before[r] && r.m_mapChilds == before[r][chain[0].m_strName := chain[0]])
      && (forall j :: 0 <= j < |chain| ==> LinkAt(r, chain, j))
    }

    lemma OthersHaveChildren(r: CDirEntry, chain: seq<CDirEntry>)
      requires forall j :: 0 <= j < |chain| ==> LinkAt(r, chain, j)
      ensures forall j :: 0 <= j < |chain| - 1 ==> chain[j] != chain[|chain| - 1]
    {
      forall j | 0 <= j < |chain| - 1 ensures chain[j] != chain[|chain| - 1] {
        assert LinkAt(r, chain, j) && LinkAt(r, chain, |chain| - 1);
        assert chain[j + 1].m_strName in chain[j].m_mapChilds;
      }
    }

    lemma HangsPath(d: CDirEntry, name: string, c: CDirEntry)
      requires Hangs(d, name, c)
      ensures c.path == d.path + [name]
    {
    }

    /** One more entry at the end of the chain. */
    method Extend(pParent: CDirEntry, strName: string,
                  ghost before: Tree, ghost r: CDirEntry, ghost chain: seq<CDirEntry>)
      returns (ret: int, ghost pEnt: CDirEntry)
      requires Valid() && pParent in nodes && strName != "" && pParent.Child(strName) == null
      requires Grown(before, r, chain) && pParent == if chain == [] then r else chain[|chain| - 1]
      modifies this`nodes, pParent`m_mapChilds
      ensures Valid()
      ensures ret == if |strName| > REG_MAX_NAME then -EINVAL else STATUS_SUCCESS
      ensures if ret == STATUS_SUCCESS then
                && fresh(pEnt) && pEnt in nodes && Grown(before, r, chain + [pEnt])
                && pParent.Child(strName) == pEnt && pEnt.path == pParent.path + [strName]
              else Grown(before, r, chain)
    {
      hide Valid, Hangs;
      OthersHaveChildren(r, chain);
      ret, pEnt := CreateChild(pParent, strName);
      if ret == STATUS_SUCCESS {
        ghost var longer := chain + [pEnt];
        assert (map[])[strName := pEnt] == map[strName := pEnt];
        forall j | 0 <= j < |longer| ensures LinkAt(r, longer, j) {
          assert j < |chain| ==> old(LinkAt(r, chain, j));
        }
        assert pEnt.path == pParent.path + [strName] by {
          HangsPath(pParent, strName, pEnt);
        }
      }
    }

    /** One less. */
    method DropLast(ghost before: Tree, ghost r: CDirEntry, ghost chain: seq<CDirEntry>,
                    pParent: CDirEntry, strName: string)
      requires Valid() && Grown(before, r, chain) && chain != [] && m_pCurDir in before
      requires chain[|chain| - 1].m_pParent == pParent && chain[|chain| - 1].m_strName == strName
      modifies this`nodes, pParent`m_mapChilds
      ensures Valid() && Grown(before, r, chain[..|chain| - 1])
      ensures pParent == if |chain| == 1 then r else chain[|chain| - 2]
    {
      hide Valid, Hangs;
      ghost var n := |chain| - 1;
      ghost var c, shorter := chain[n], chain[..n];
      OthersHaveChildren(r, chain);
      assert LinkAt(r, chain, n);
      assert n > 0 ==> LinkAt(r, chain, n - 1);
      assert pParent in nodes && strName in pParent.m_mapChilds && pParent.m_mapChilds[strName] == c;
      assert (set x | x in chain) == (set x | x in shorter) + {c};
      DropChild(pParent, strName);
      forall j | 0 <= j < n ensures LinkAt(r, shorter, j) {
        assert old(LinkAt(r, chain, j));
      }
    }

    /** Undoes what was made, from the last entry made up to where it hangs. */
    method Rollback(pRollback: CDirEntry, pParent: CDirEntry,
                    ghost before: Tree, ghost made: seq<CDirEntry>)
      requires Valid() && Grown(before, pRollback, made) && m_pCurDir in before
      requires pParent == if made == [] then pRollback else made[|made| - 1]
      modifies this`nodes, nodes`m_mapChilds
      ensures Valid() && Grown(before, pRollback, [])
    {
      var pLeaf: CDirEntry? := pParent;
      ghost var chain := made;
      while pRollback != pLeaf
        invariant Valid() && Grown(before, pRollback, chain) && chain <= made
        invariant pLeaf == if chain == [] then pRollback else chain[|chain| - 1]
        decreases |chain|
      {
        assert Linked(pLeaf);
        assert LinkAt(pRollback, chain, |chain| - 1);
        var strName := pLeaf.m_strName;
        pLeaf := pLeaf.m_pParent;
        if pLeaf != null {
          DropLast(before, pRollback, chain, pLeaf, strName);
          chain := chain[..|chain| - 1];
        }
      }
      assert chain == [];
    }

    lemma NothingGrown(r: CDirEntry)
      requires r in nodes
      ensures Grown(Snapshot(), r, [])
    {
      assert nodes == Snapshot().Keys + (set c | c in []);
    }

    lemma GrownExtends(before: Tree, r: CDirEntry, made: seq<CDirEntry>)
      requires Grown(before, r, made)
      ensures nodes == before.Keys + (set c | c in made)
      ensures Extends(before, Snapshot())
      ensures made == [] ==> before == Snapshot()
    {
      if made != [] {
        assert LinkAt(r, made, 0);
      }
    }

    lemma EndIsLeaf(before: Tree, r: CDirEntry, made: seq<CDirEntry>, name: string)
      requires Grown(before, r, made) && made != []
      ensures made[|made| - 1].Child(name) == null
    {
      assert LinkAt(r, made, |made| - 1);
    }

    lemma GrownAnywhere(before: Tree, r: CDirEntry, was: CDirEntry)
      requires Grown(before, was, []) && r in nodes
      ensures Grown(before, r, [])
    {
    }

    predicate ShortNames(names: seq<string>) {
      forall i :: 0 <= i < |names| ==> |names[i]| <= REG_MAX_NAME
    }

    /** The walk of MakeDir, which makes every entry that is missing, until a name is too long. */
    method MakeNames(pStart: CDirEntry, names: seq<string>)
      returns (ret: int, pCurDir: CDirEntry, pParent: CDirEntry, pRollback: CDirEntry?,
               ghost before: Tree, ghost r: CDirEntry, ghost made: seq<CDirEntry>)
      requires Valid() && pStart in nodes && forall i :: 0 <= i < |names| ==> names[i] != ""
      modifies this`nodes, nodes`m_mapChilds
      ensures Valid() && ret == if ShortNames(names) then STATUS_SUCCESS else -EINVAL
      ensures before == old(Snapshot())
      ensures forall c :: c in made ==> fresh(c)
      ensures ret == STATUS_SUCCESS ==>
                && pCurDir in nodes && pCurDir.path == pStart.path + names && Grown(before, r, made)
                && forall c :: c in made ==> c.path <= pCurDir.path
      ensures ret < 0 ==>
                && pRollback != null && Grown(before, pRollback, made)
                && pParent == if made == [] then pRollback else made[|made| - 1]
    {
      hide Valid, Hangs, Linked, Grown, Snapshot, Extends;
      before := Snapshot();
      made := [];
      ret, pCurDir, pParent, pRollback := STATUS_SUCCESS, pStart, pStart, null;
      r := pStart;
      NothingGrown(pStart);
      var i := 0;
      assert pStart.path + names[..0] == pStart.path;
      while i < |names|
        invariant 0 <= i <= |names| && ret == STATUS_SUCCESS && ShortNames(names[..i])
        invariant Valid() && Grown(before, r, made) && forall c :: c in made ==> fresh(c)
        invariant pCurDir in nodes && (pCurDir in old(nodes) || fresh(pCurDir)) && pCurDir.path == pStart.path + names[..i]
        invariant if made == [] then pRollback == null else pRollback == r && pCurDir == made[|made| - 1]
        invariant forall c :: c in made ==> c.path <= pCurDir.path
      {
        assert names[..i + 1] == names[..i] + [names[i]];
        Assoc(pStart.path, names[..i], [names[i]]);
        pParent := pCurDir;
        GrownExtends(before, r, made);
        if made != [] {
          EndIsLeaf(before, r, made, names[i]);
        }
        var pChild := pCurDir.GetChild(names[i]);
        if pChild == null {
          if pRollback == null {
            pRollback := pParent;
            GrownAnywhere(before, pParent, r);
            r := pParent;
          }
          ghost var pEnt;
          ret, pEnt := Extend(pParent, names[i], before, r, made);
          if ret < 0 {
            return;
          }
          made := made + [pEnt];
          pChild := pParent.GetChild(names[i]);
          if pChild == null {
            assert false;
          }
        } else {
          ChildPath(pCurDir, names[i]);
        }
        pCurDir := pChild;
        i := i + 1;
      }
      assert names[..i] == names;
    }

    lemma ChildPath(d: CDirEntry, name: string)
      requires Valid() && d in nodes && d.Child(name) != null
      ensures d.Child(name) in nodes && d.Child(name).path == d.path + [name]
    {
      assert Linked(d);
    }

    /** Where a path leads when "." and ".." are names like any other. */
    ghost function Target(strPath: string): seq<string>
      reads this, m_pCurDir
    {
      (if strPath != "" && strPath[0] == '/' then [] else m_pCurDir.path) + Segments(strPath)
    }

    /** All or nothing: with a legal path and no name too long, the new current directory is where the path
        leads, everything that was there still is, and nothing is new but what lies on the path;
        otherwise tree and current directory are as they were. */
    method MakeDir(strPath: string) returns (ret: int)
      requires Valid()
      modifies this`nodes, this`m_pCurDir, nodes`m_mapChilds
      ensures Valid()
      ensures ret == if 1 <= |strPath| <= REG_MAX_PATH && ShortNames(Segments(strPath)) then STATUS_SUCCESS else -EINVAL
      ensures ret == STATUS_SUCCESS ==>
                && m_pCurDir.path == old(Target(strPath))
                && Extends(old(Snapshot()), Snapshot())
                && forall d :: d in nodes - old(nodes) ==> fresh(d) && d.path <= m_pCurDir.path
      ensures ret != STATUS_SUCCESS ==>
                nodes == old(nodes) && m_pCurDir == old(m_pCurDir) && Snapshot() == old(Snapshot())
    {
      var vecComp;
      ret, vecComp := Namei(strPath);
      if ret < 0 {
        return;
      }
      var pStart := m_pCurDir;
      if vecComp[0] == "/" {
        pStart := m_pRootDir;
        vecComp := vecComp[1..];
      }
      RootInTree();
      assert vecComp == Segments(strPath);
      hide Valid, Segments, Snapshot, Extends, ShortNames;
      ret := MakeFrom(pStart, vecComp);
    }

    method MakeFrom(pStart: CDirEntry, names: seq<string>) returns (ret: int)
      requires Valid() && pStart in nodes && forall i :: 0 <= i < |names| ==> names[i] != ""
      modifies this`nodes, this`m_pCurDir, nodes`m_mapChilds
      ensures Valid()
      ensures ret == if ShortNames(names) then STATUS_SUCCESS else -EINVAL
      ensures ret == STATUS_SUCCESS ==>
                && m_pCurDir.path == pStart.path + names
                && Extends(old(Snapshot()), Snapshot())
                && forall d :: d in nodes - old(nodes) ==> fresh(d) && d.path <= m_pCurDir.path
      ensures ret != STATUS_SUCCESS ==>
                nodes == old(nodes) && m_pCurDir == old(m_pCurDir) && Snapshot() == old(Snapshot())
    {
      hide Valid, Linked, Grown, Snapshot, Extends, ShortNames;
      CurInTree();
      var pCurDir, pParent, pRollback;
      ghost var before, r, made;
      ret, pCurDir, pParent, pRollback, before, r, made := MakeNames(pStart, names);
      if ret < 0 {
        GrownExtends(before, pRollback, made);
        Rollback(pRollback, pParent, before, made);
        GrownExtends(before, pRollback, []);
      } else {
        GrownExtends(before, r, made);
        SetCurDir(pCurDir);
      }
    }

    lemma CurInTree()
      requires Valid()
      ensures m_pCurDir in nodes
    {
    }

    method SetCurDir(pDir: CDirEntry)
      requires Valid() && pDir in nodes
      modifies this`m_pCurDir
      ensures Valid() && m_pCurDir == pDir
    {
      m_pCurDir := pDir;
      assert forall d :: d in nodes ==> old(Linked(d));
    }

    lemma RootInTree()
      requires Valid()
      ensures m_pRootDir in nodes && m_pRootDir.path == []
    {
      assert Linked(m_pRootDir);
    }

    /** An entry below the current directory, for a name and any slashes behind it; they stay part of its
        name. */
    method MakeEntry(strName: string) returns (ret: int, ghost pEnt: CDirEntry)
      requires Valid()
      modifies this`nodes, m_pCurDir`m_mapChilds
      ensures Valid()
      ensures ret == if !NameAndSlashes(strName) || |strName| > REG_MAX_NAME then -EINVAL
                     else if strName in old(m_pCurDir.m_mapChilds) then -EEXIST else STATUS_SUCCESS
      ensures if ret == STATUS_SUCCESS then
                && fresh(pEnt) && nodes == old(nodes) + {pEnt} && pEnt.path == m_pCurDir.path + [strName]
                && m_pCurDir.m_mapChilds == old(m_pCurDir.m_mapChilds)[strName := pEnt]
              else
                nodes == old(nodes) && m_pCurDir.m_mapChilds == old(m_pCurDir.m_mapChilds)
    {
      pEnt := m_pRootDir;
      if |strName| > REG_MAX_NAME {
        return -EINVAL, pEnt;
      }
      var vecComp;
      ret, vecComp := Namei(strName);
      if ret < 0 {
        return;
      }
      OneComponent(strName);
      if |vecComp| > 1 || vecComp[0] == "/" {
        return -EINVAL, pEnt;
      }
      ret, pEnt := CreateChild(m_pCurDir, strName);
    }

    /** End to end: what MakeEntry has made is found again by its full path exactly if its name is
        ordinary and so are those above it, and the path is not too long. With slashes behind its name
        it never is: the path leads to whatever hangs there under the name without them. */
    method MakeAndFind(strName: string) returns (made: int, ret: int, pDir: CDirEntry?)
      requires Valid()
      modifies this`nodes, m_pCurDir`m_mapChilds
      ensures Valid()
      ensures made == STATUS_SUCCESS <==>
                NameAndSlashes(strName) && |strName| <= REG_MAX_NAME && strName !in old(m_pCurDir.m_mapChilds)
      ensures made == STATUS_SUCCESS ==>
                var path := m_pCurDir.path + [strName];
                && strName in m_pCurDir.m_mapChilds
                && (ret == STATUS_SUCCESS && pDir == m_pCurDir.m_mapChilds[strName] <==>
                      AllOrdinary(m_pCurDir.path) && OrdinaryName(strName) && |FullPath(path)| <= REG_MAX_PATH)
                && (AllOrdinary(m_pCurDir.path) && OrdinaryName(Components(strName)[0]) && |FullPath(path)| <= REG_MAX_PATH ==>
                      pDir == m_pCurDir.Child(Components(strName)[0]))
    {
      ret, pDir := STATUS_SUCCESS, null;
      ghost var pNew;
      made, pNew := MakeEntry(strName);
      if made != STATUS_SUCCESS {
        return;
      }
      assert Linked(m_pCurDir);
      var pEnt := m_pCurDir.m_mapChilds[strName];
      OneComponent(strName);
      LastIsOrdinary(m_pCurDir.path, strName);
      ret, pDir := FindAgain(pEnt);
      if AllOrdinary(m_pCurDir.path) && OrdinaryName(Components(strName)[0]) {
        LeadsToName(strName);
      }
    }

    /** The full path of an entry made by that name leads to the child of the current directory under
        the name without its slashes. */
    lemma LeadsToName(strName: string)
      requires Valid() && NameAndSlashes(strName)
      requires AllOrdinary(m_pCurDir.path) && Segments(strName) != [] && OrdinaryName(Segments(strName)[0])
      ensures Walk(m_pCurDir, Components(FullPath(m_pCurDir.path + [strName]))) == m_pCurDir.Child(Segments(strName)[0])
    {
      var names, name := m_pCurDir.path, Segments(strName)[0];
      OneComponent(strName);
      ComponentsOfLast(names, strName);
      assert Segments(strName) == [name];
      RootInTree();
      assert (["/"] + (names + [name]))[1..] == names + [name];
      WalkDown(m_pCurDir);
      WalkAppend(m_pRootDir, names, name);
    }
  }

  lemma LastIsOrdinary(names: seq<string>, last: string)
    ensures AllOrdinary(names + [last]) <==> AllOrdinary(names) && OrdinaryName(last)
  {
    var all := names + [last];
    assert all[|names|] == last && forall i :: 0 <= i < |names| ==> all[i] == names[i];
  }
}
