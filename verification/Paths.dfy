/** Names: how the file system looks up directories and files, and when names are unique. */
module Paths {
  import opened Contents
  import opened Layout

  /** The first directory from position i on with the given name; the length of the list when there is none. */
  function DirIndex(t: Tree, name: string, i: nat): (k: nat)
    requires i <= |t.dirs|
    ensures i <= k <= |t.dirs|
    ensures k < |t.dirs| ==> t.dirs[k].name == name
    ensures forall j | i <= j < k :: t.dirs[j].name != name
    decreases |t.dirs| - i
  {
    if i == |t.dirs| || t.dirs[i].name == name then i else DirIndex(t, name, i + 1)
  }

  function FindDir(t: Tree, name: string): nat {
    DirIndex(t, name, 0)
  }

  predicate HasDir(t: Tree, name: string) {
    FindDir(t, name) < |t.dirs|
  }

  predicate IsFile(t: Tree, f: nat, name: string) {
    f != 0 && f in t.files && t.files[f].name == name
  }

  /** The first slot from s on that holds a file with the given name; the number of slots when there is none. */
  function SlotIndex(t: Tree, slots: seq<nat>, name: string, s: nat): (k: nat)
    requires s <= |slots|
    ensures s <= k <= |slots|
    ensures k < |slots| ==> IsFile(t, slots[k], name)
    ensures forall j | s <= j < k :: !IsFile(t, slots[j], name)
    decreases |slots| - s
  {
    if s == |slots| || IsFile(t, slots[s], name) then s else SlotIndex(t, slots, name, s + 1)
  }

  /** The first free slot from s on. */
  function FreeSlot(slots: seq<nat>, s: nat): (k: nat)
    requires s <= |slots|
    ensures s <= k <= |slots|
    ensures k < |slots| ==> slots[k] == 0
    ensures forall j | s <= j < k :: slots[j] != 0
    decreases |slots| - s
  {
    if s == |slots| || slots[s] == 0 then s else FreeSlot(slots, s + 1)
  }

  /** The first free slot of a directory; 0 when there is none of the name. */
  function FirstFree(t: Tree, dir: string): nat {
    if HasDir(t, dir) then FreeSlot(t.dirs[FindDir(t, dir)].slots, 0) else 0
  }

  /** The inode of the file with the given path; 0 when there is none. */
  function FileOf(t: Tree, dir: string, name: string): nat {
    var i := FindDir(t, dir);
    if i == |t.dirs| then 0 else
      var s := SlotIndex(t, t.dirs[i].slots, name, 0);
      if s == |t.dirs[i].slots| then 0 else t.dirs[i].slots[s]
  }

  /** No two directories have the same name, and no two files of a directory. */
  ghost predicate Named(t: Tree) {
    && (forall i, k | 0 <= i < k < |t.dirs| :: t.dirs[i].name != t.dirs[k].name)
    && (forall i | 0 <= i < |t.dirs| :: NamedSlots(t, t.dirs[i].slots))
  }

  ghost predicate NamedSlots(t: Tree, slots: seq<nat>) {
    forall a, b | 0 <= a < b < |slots| && slots[a] in t.files && slots[b] in t.files && slots[a] != 0 && slots[b] != 0 ::
      t.files[slots[a]].name != t.files[slots[b]].name
  }

  /** How many frames a file of the given size has. */
  function FrameCount(size: nat): nat {
    if size == 0 then 1 else (size + FRAME_BYTES - 1) / FRAME_BYTES
  }

  ghost predicate Sized(t: Tree) {
    forall f | f in t.files :: |t.files[f].chain| == FrameCount(t.files[f].size)
  }
}
