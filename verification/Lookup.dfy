/** What each change of the tree does to the look-up of every path. */
module Lookup {
  import opened Layout
  import opened Paths
  import opened Steps
  import opened Unlinks

  /** Slot s of directory i holds the file with the given path. */
  ghost predicate IsAt(t: Tree, dir: string, name: string, i: int, s: int) {
    && 0 <= i < |t.dirs| && t.dirs[i].name == dir
    && 0 <= s < |t.dirs[i].slots| && IsFile(t, t.dirs[i].slots[s], name)
  }

  /** What slot s of directory i holds. */
  function Slot(t: Tree, i: int, s: int): nat {
    if 0 <= i < |t.dirs| && 0 <= s < |t.dirs[i].slots| then t.dirs[i].slots[s] else 0
  }

  /** Where names are unique, a path is found where it is. */
  lemma FoundAt(t: Tree, dir: string, name: string, i: int, s: int)
    requires Named(t) && IsAt(t, dir, name, i, s)
    ensures FileOf(t, dir, name) == Slot(t, i, s) != 0
  {
    var k := FindDir(t, dir);
    assert k == i;
    assert NamedSlots(t, t.dirs[i].slots);
    var h := SlotIndex(t, t.dirs[i].slots, name, 0);
    assert h == s;
  }

  lemma FoundIsAt(t: Tree, dir: string, name: string)
    requires FileOf(t, dir, name) != 0
    ensures exists i, s :: IsAt(t, dir, name, i, s) && Slot(t, i, s) == FileOf(t, dir, name)
  {
    var i := FindDir(t, dir);
    var s := SlotIndex(t, t.dirs[i].slots, name, 0);
    assert IsAt(t, dir, name, i, s);
  }

  /** Two trees that hold the same path in the same block find the same. */
  lemma SameLookup(t: Tree, t2: Tree, dir: string, name: string)
    requires Named(t) && Named(t2)
    requires forall i, s | IsAt(t, dir, name, i, s) ::
               exists k, h :: IsAt(t2, dir, name, k, h) && Slot(t2, k, h) == Slot(t, i, s)
    requires forall k, h | IsAt(t2, dir, name, k, h) :: exists i, s :: IsAt(t, dir, name, i, s)
    ensures FileOf(t2, dir, name) == FileOf(t, dir, name)
  {
    hide Named, FileOf, IsAt, Slot;
    if FileOf(t, dir, name) != 0 {
      FoundIsAt(t, dir, name);
      var i, s :| IsAt(t, dir, name, i, s) && Slot(t, i, s) == FileOf(t, dir, name);
      var k, h :| IsAt(t2, dir, name, k, h) && Slot(t2, k, h) == Slot(t, i, s);
      FoundAt(t2, dir, name, k, h);
    } else if FileOf(t2, dir, name) != 0 {
      FoundIsAt(t2, dir, name);
      var k, h :| IsAt(t2, dir, name, k, h) && Slot(t2, k, h) == FileOf(t2, dir, name);
      var i, s :| IsAt(t, dir, name, i, s);
      FoundAt(t, dir, name, i, s);
      assert false;
    }
  }

  /** A new directory without files changes no path. */
  lemma AppendedLookup(t: Tree, t2: Tree, b: nat, added: string, dir: string, name: string)
    requires Named(t) && Named(t2) && t2 == t.(dirs := t.dirs + [DirNode(b, added, Zeros(NINODES))])
    ensures FileOf(t2, dir, name) == FileOf(t, dir, name)
  {
    hide Named;
    forall i, s | IsAt(t, dir, name, i, s)
      ensures exists k, h :: IsAt(t2, dir, name, k, h) && Slot(t2, k, h) == Slot(t, i, s)
    {
      assert IsAt(t2, dir, name, i, s);
    }
    forall k, h | IsAt(t2, dir, name, k, h)
      ensures exists i, s :: IsAt(t, dir, name, i, s)
    {
      assert IsAt(t, dir, name, k, h);
    }
    SameLookup(t, t2, dir, name);
  }

  /** Removing a directory without files changes no path. */
  lemma RemovedDirLookup(t: Tree, t2: Tree, i: nat, dir: string, name: string)
    requires Named(t) && Named(t2) && i < |t.dirs|
    requires t2.dirs == t.dirs[..i] + t.dirs[i + 1..] && t2.files == t.files
    requires forall s | 0 <= s < |t.dirs[i].slots| :: t.dirs[i].slots[s] == 0
    ensures FileOf(t2, dir, name) == FileOf(t, dir, name)
  {
    hide Named;
    forall k, s | IsAt(t, dir, name, k, s)
      ensures exists k2, h :: IsAt(t2, dir, name, k2, h) && Slot(t2, k2, h) == Slot(t, k, s)
    {
      var k2 := if k < i then k else k - 1;
      assert t2.dirs[k2] == t.dirs[k];
      assert IsAt(t2, dir, name, k2, s);
    }
    forall k, h | IsAt(t2, dir, name, k, h)
      ensures exists k2, s :: IsAt(t, dir, name, k2, s)
    {
      var k2 := if k < i then k else k + 1;
      assert t2.dirs[k] == t.dirs[k2];
      assert IsAt(t, dir, name, k2, h);
    }
    SameLookup(t, t2, dir, name);
  }

  /** A change of a file that keeps its name changes no path. */
  lemma UpdatedLookup(t: Tree, f: nat, file: FileNode, dir: string, name: string)
    requires f in t.files && file.name == t.files[f].name && Named(t) && Named(WithFile(t, f, file))
    ensures FileOf(WithFile(t, f, file), dir, name) == FileOf(t, dir, name)
  {
    hide Named;
    var t2 := WithFile(t, f, file);
    forall i, s | IsAt(t, dir, name, i, s)
      ensures exists k, h :: IsAt(t2, dir, name, k, h) && Slot(t2, k, h) == Slot(t, i, s)
    {
      assert IsAt(t2, dir, name, i, s);
    }
    forall k, h | IsAt(t2, dir, name, k, h)
      ensures exists i, s :: IsAt(t, dir, name, i, s)
    {
      assert IsAt(t, dir, name, k, h);
    }
    SameLookup(t, t2, dir, name);
  }

  /** Every used slot holds a file, and no file is in two slots. */
  ghost predicate SlotsAreFiles(t: Tree) {
    forall i | 0 <= i < |t.dirs| :: |t.dirs[i].slots| == NINODES && SlotsIn(t.dirs[i].slots, t.files.Keys)
  }

  predicate SlotsIn(slots: seq<nat>, files: set<nat>) {
    forall s | 0 <= s < |slots| && slots[s] != 0 :: slots[s] in files
  }

  ghost predicate OnePlace(t: Tree) {
    forall i, s, k, h | 0 <= i < |t.dirs| && 0 <= s < |t.dirs[i].slots| && 0 <= k < |t.dirs| && 0 <= h < |t.dirs[k].slots| ::
      t.dirs[i].slots[s] == t.dirs[k].slots[h] != 0 ==> i == k && s == h
  }

  /** t2 is t with a new file f in slot s of directory i: no bytes, one frame, and one content block. */
  ghost predicate Created(t: Tree, t2: Tree, i: nat, s: nat, f: nat, name: string) {
    && i < |t.dirs| && s < |t.dirs[i].slots| && t.dirs[i].slots[s] == 0 && f !in t.files && f in t2.files
    && t2.dirs == t.dirs[i := t.dirs[i].(slots := t.dirs[i].slots[s := f])]
    && t2.files == t.files[f := t2.files[f]]
    && t2.files[f].name == name && JustCreated(t2.files[f])
  }

  /** A file as sfs_open creates it: one frame with its first entry set. */
  ghost predicate JustCreated(file: FileNode) {
    && file.size == 0 && |file.chain| == 1 && |file.chain[0].content| == FRAME_COUNT
    && forall k | 0 <= k < FRAME_COUNT :: file.chain[0].content[k] != 0 <==> k == 0
  }

  /** Creating a file makes its path lead to it, and changes no other path. */
  lemma CreatedLookup(t: Tree, t2: Tree, i: nat, s: nat, f: nat, name: string, dir: string, other: string)
    requires Named(t) && Named(t2) && SlotsAreFiles(t) && Created(t, t2, i, s, f, name) && f != 0
    ensures FileOf(t2, dir, other) == if dir == t.dirs[i].name && other == name then f else FileOf(t, dir, other)
  {
    hide Named;
    if dir == t.dirs[i].name && other == name {
      assert IsAt(t2, dir, other, i, s);
      FoundAt(t2, dir, other, i, s);
    } else {
      forall k, h | IsAt(t, dir, other, k, h)
        ensures exists k2, h2 :: IsAt(t2, dir, other, k2, h2) && Slot(t2, k2, h2) == Slot(t, k, h)
      {
        assert t.dirs[k].slots[h] in t.files;
        assert IsAt(t2, dir, other, k, h);
      }
      forall k, h | IsAt(t2, dir, other, k, h)
        ensures exists k2, h2 :: IsAt(t, dir, other, k2, h2)
      {
        assert k == i && h == s ==> other == name;
        assert t2.dirs[k].slots[h] == t.dirs[k].slots[h];
        assert SlotsIn(t.dirs[k].slots, t.files.Keys);
        assert IsAt(t, dir, other, k, h);
      }
      SameLookup(t, t2, dir, other);
    }
  }

  /** Removing a file makes its path lead nowhere, and changes no other path. */
  lemma RemovedLookup(t: Tree, i: nat, s: nat, f: nat, dir: string, other: string)
    requires i < |t.dirs| && s < |t.dirs[i].slots| && t.dirs[i].slots[s] == f && f != 0 && f in t.files
    requires Named(t) && Named(RemovedFile(t, i, s, f)) && OnePlace(t)
    ensures FileOf(RemovedFile(t, i, s, f), dir, other)
         == if dir == t.dirs[i].name && other == t.files[f].name then 0 else FileOf(t, dir, other)
  {
    hide Named;
    var t2 := RemovedFile(t, i, s, f);
    if dir == t.dirs[i].name && other == t.files[f].name {
      if FileOf(t2, dir, other) != 0 {
        FoundIsAt(t2, dir, other);
        var k, h :| IsAt(t2, dir, other, k, h) && Slot(t2, k, h) == FileOf(t2, dir, other);
        assert IsAt(t, dir, other, k, h) && IsAt(t, dir, other, i, s);
        FoundAt(t, dir, other, k, h);
        FoundAt(t, dir, other, i, s);
        assert false;
      }
    } else {
      forall k, h | IsAt(t, dir, other, k, h)
        ensures exists k2, h2 :: IsAt(t2, dir, other, k2, h2) && Slot(t2, k2, h2) == Slot(t, k, h)
      {
        assert IsAt(t2, dir, other, k, h);
      }
      forall k, h | IsAt(t2, dir, other, k, h)
        ensures exists k2, h2 :: IsAt(t, dir, other, k2, h2)
      {
        assert IsAt(t, dir, other, k, h);
      }
      SameLookup(t, t2, dir, other);
    }
  }
}
