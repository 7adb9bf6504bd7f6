/**
 * The fixed-capacity folder of the kernel crate
 * (kernel/src/folders/folder.rs): sixteen optional entry slots filled from
 * the front, and a count of the filled ones. Entries are appended at the
 * end and removed by shifting the later ones left.
 */
module Folders {
  import opened Wrappers

  /**
   * `FolderEntry`: a file by its item id, or a sub-folder by its index in
   * the folder collection. The second is `Folder(usize)` in the source; it
   * is renamed so as not to clash with the class below.
   */
  datatype FolderEntry = File(id: nat) | SubFolder(index: nat)

  /** The length of the `entries` array. */
  const CAPACITY: nat := 16

  /** The entries held by a run of filled slots, in slot order. */
  function Values(s: seq<Option<FolderEntry>>): (r: seq<FolderEntry>)
    requires forall i :: 0 <= i < |s| ==> s[i].Some?
    ensures |r| == |s|
    ensures forall i :: 0 <= i < |s| ==> s[i] == Some(r[i])
  {
    if |s| == 0 then [] else [s[0].value] + Values(s[1..])
  }

  /** `s` with its first occurrence of `e` deleted, the rest in order; `s` itself when `e` does not occur. */
  function RemoveFirst(s: seq<FolderEntry>, e: FolderEntry): (r: seq<FolderEntry>)
    ensures e in s ==> |r| == |s| - 1
    ensures e !in s ==> r == s
    ensures multiset(r) == multiset(s) - multiset{e}
  {
    if |s| == 0 then []
    else
      assert s == [s[0]] + s[1..];
      if s[0] == e then s[1..]
      else [s[0]] + RemoveFirst(s[1..], e)
  }

  /** When `i` is the first position of `e`, removing the first `e` cuts out exactly position `i`. */
  lemma {:induction false} RemoveFirstAt(s: seq<FolderEntry>, e: FolderEntry, i: nat)
    requires i < |s| && s[i] == e
    requires forall k :: 0 <= k < i ==> s[k] != e
    ensures RemoveFirst(s, e) == s[..i] + s[i + 1..]
  {
    if i > 0 {
      var t := s[1..];
      assert s[0] != e;
      RemoveFirstStep(s, e);
      forall k | 0 <= k < i - 1 ensures t[k] != e {
        assert t[k] == s[k + 1];
      }
      RemoveFirstAt(t, e, i - 1);
      ConsSplit(s, i);
    }
  }

  /** Cutting position `i` out of the tail and putting the head back cuts position `i` out of the whole. */
  lemma ConsSplit(s: seq<FolderEntry>, i: nat)
    requires 0 < i < |s|
    ensures [s[0]] + (s[1..][..i - 1] + s[1..][i..]) == s[..i] + s[i + 1..]
  {
    assert s[1..][..i - 1] == s[1..i];
    assert s[1..][i..] == s[i + 1..];
    assert [s[0]] + s[1..i] == s[..i];
  }

  /** Past a head that is not `e`, the removal keeps the head and goes on in the tail. */
  lemma RemoveFirstStep(s: seq<FolderEntry>, e: FolderEntry)
    requires |s| > 0 && s[0] != e
    ensures RemoveFirst(s, e) == [s[0]] + RemoveFirst(s[1..], e)
  {
  }

  class Folder {
    const name: string
    const entries: array<Option<FolderEntry>>
    var count: nat

    /** Slots below `count` are filled, the others empty. */
    ghost predicate Valid()
      reads this, entries
    {
      && entries.Length == CAPACITY
      && count <= CAPACITY
      && (forall i :: 0 <= i < count ==> entries[i].Some?)
      && (forall i :: count <= i < CAPACITY ==> entries[i] == None)
    }

    /** The entries in the folder, in slot order. */
    ghost function Live(): seq<FolderEntry>
      reads this, entries
      requires Valid()
    {
      Values(entries[..count])
    }

    /** `Folder::new`: the given name, every slot empty. */
    constructor (name: string)
      ensures Valid()
      ensures this.name == name && count == 0 && Live() == []
      ensures fresh(entries)
    {
      this.name := name;
      entries := new Option<FolderEntry>[CAPACITY](_ => None);
      count := 0;
    }

    /**
     * `add_entry`: when a slot is free, writes the entry into slot `count`
     * and counts it; when all sixteen are taken, changes nothing and
     * reports false.
     */
    method AddEntry(entry: FolderEntry) returns (added: bool)
      requires Valid()
      modifies this, entries
      ensures Valid()
      ensures added <==> old(count) < CAPACITY
      ensures added ==> count == old(count) + 1 && Live() == old(Live()) + [entry]
      ensures added ==> entries[..] == old(entries[..])[old(count) := Some(entry)]
      ensures !added ==> count == old(count) && entries[..] == old(entries[..])
    {
      if count < entries.Length {
        entries[count] := Some(entry);
        count := count + 1;
        added := true;
        assert entries[..count] == old(entries[..count]) + [Some(entry)];
        assert Live() == old(Live()) + [entry];
      } else {
        added := false;
      }
    }

    /**
     * `remove_file`: deletes the first slot holding `File(id)` by moving
     * every later entry one slot left and emptying the last filled slot.
     */
    method RemoveFile(id: nat) returns (removed: bool)
      requires Valid()
      modifies this, entries
      ensures Valid()
      ensures removed <==> File(id) in old(Live())
      ensures Live() == RemoveFirst(old(Live()), File(id))
      ensures removed ==> count == old(count) - 1
      ensures !removed ==> count == old(count) && entries[..] == old(entries[..])
    {
      removed := RemoveFirstMatch(File(id));
    }

    /** `remove_folder`: the same as `remove_file` for `Folder(folder_idx)`. */
    method RemoveFolder(folderIdx: nat) returns (removed: bool)
      requires Valid()
      modifies this, entries
      ensures Valid()
      ensures removed <==> SubFolder(folderIdx) in old(Live())
      ensures Live() == RemoveFirst(old(Live()), SubFolder(folderIdx))
      ensures removed ==> count == old(count) - 1
      ensures !removed ==> count == old(count) && entries[..] == old(entries[..])
    {
      removed := RemoveFirstMatch(SubFolder(folderIdx));
    }

    /** The scan-and-shift loop that both removals run. */
    method RemoveFirstMatch(e: FolderEntry) returns (removed: bool)
      requires Valid()
      modifies this, entries
      ensures Valid()
      ensures removed <==> e in old(Live())
      ensures Live() == RemoveFirst(old(Live()), e)
      ensures removed ==> count == old(count) - 1
      ensures !removed ==> count == old(count) && entries[..] == old(entries[..])
    {
      ghost var live := Live();
      var i := 0;
      while i < count
        invariant 0 <= i <= count
        invariant Valid() && count == old(count) && entries[..] == old(entries[..])
        invariant forall k :: 0 <= k < i ==> live[k] != e
      {
        if entries[i] == Some(e) {
          RemoveFirstAt(live, e, i);
          ShiftOut(i);
          return true;
        }
        i := i + 1;
      }
      return false;
    }

    /**
     * The inner loop of the removals: slot `i` is overwritten by moving
     * every later filled slot one place left, and the last filled slot is
     * emptied.
     */
    method ShiftOut(i: nat)
      requires Valid() && i < count
      modifies this, entries
      ensures Valid()
      ensures count == old(count) - 1
      ensures entries[..] == ShiftLeft(old(entries[..]), i, old(count))
      ensures Live() == old(Live())[..i] + old(Live())[i + 1..]
    {
      ghost var before := entries[..];
      var j := i;
      while j + 1 < count
        invariant i <= j < count
        invariant count == old(count) <= CAPACITY == entries.Length
        invariant forall k :: 0 <= k < i ==> entries[k] == before[k]
        invariant forall k :: i <= k < j ==> entries[k] == before[k + 1]
        invariant forall k :: j <= k < CAPACITY ==> entries[k] == before[k]
      {
        entries[j] := entries[j + 1];
        j := j + 1;
      }
      entries[count - 1] := None;
      count := count - 1;
      ShiftedIsShiftLeft(before, entries[..], i, old(count));
      ShiftLeftKeepsShape(before, i, old(count));
    }
  }

  /** Slot `i` of the first `n` deleted, the later ones moved left, and an empty slot put in at `n - 1`. */
  function ShiftLeft(s: seq<Option<FolderEntry>>, i: nat, n: nat): (r: seq<Option<FolderEntry>>)
    requires i < n <= |s|
    ensures |r| == |s|
  {
    s[..i] + s[i + 1..n] + [None] + s[n..]
  }

  /** A slot array that agrees with `ShiftLeft(s, i, n)` slot by slot is that array. */
  lemma ShiftedIsShiftLeft(s: seq<Option<FolderEntry>>, r: seq<Option<FolderEntry>>, i: nat, n: nat)
    requires i < n <= |s| == |r|
    requires forall k :: 0 <= k < i ==> r[k] == s[k]
    requires forall k :: i <= k < n - 1 ==> r[k] == s[k + 1]
    requires r[n - 1] == None
    requires forall k :: n <= k < |s| ==> r[k] == s[k]
    ensures r == ShiftLeft(s, i, n)
  {
    var w := ShiftLeft(s, i, n);
    forall k | 0 <= k < |s| ensures r[k] == w[k] {
      if k < i {
        assert w[k] == s[k];
      } else if k < n - 1 {
        assert w[k] == s[k + 1];
      } else if k >= n {
        assert w[k] == s[k];
      }
    }
  }

  /**
   * Shifting a filled slot out of a well-shaped slot array leaves it
   * well-shaped with one fewer filled slot, and removes exactly that entry
   * from the live entries.
   */
  lemma ShiftLeftKeepsShape(s: seq<Option<FolderEntry>>, i: nat, n: nat)
    requires i < n <= |s|
    requires forall k :: 0 <= k < n ==> s[k].Some?
    requires forall k :: n <= k < |s| ==> s[k] == None
    ensures var r := ShiftLeft(s, i, n);
      && (forall k :: 0 <= k < n - 1 ==> r[k].Some?)
      && (forall k :: n - 1 <= k < |r| ==> r[k] == None)
      && Values(r[..n - 1]) == Values(s[..n])[..i] + Values(s[..n])[i + 1..]
  {
    var r := ShiftLeft(s, i, n);
    var live := Values(s[..n]);
    forall k | 0 <= k < n - 1 ensures r[k].Some? && r[k] == Some((live[..i] + live[i + 1..])[k]) {
      if k < i {
        assert r[k] == s[k];
      } else {
        assert r[k] == s[k + 1];
      }
    }
    forall k | n - 1 <= k < |r| ensures r[k] == None {
      if k >= n { assert r[k] == s[k]; }
    }
  }

  /** A folder holding `es`, built by `new` and one `add_entry` per entry. */
  method Filled(es: seq<FolderEntry>) returns (f: Folder)
    requires |es| <= CAPACITY
    ensures fresh(f) && fresh(f.entries)
    ensures f.Valid() && f.Live() == es
  {
    f := new Folder("root");
    for k := 0 to |es|
      invariant fresh(f) && fresh(f.entries)
      invariant f.Valid() && f.Live() == es[..k]
    {
      var added := f.AddEntry(es[k]);
      assert es[..k + 1] == es[..k] + [es[k]];
    }
    assert es[..|es|] == es;
  }

  /**
   * A removal deletes only the first of several equal entries and keeps the
   * others in order.
   */
  method RemoveKeepsOrder() returns (removed: bool, live: seq<FolderEntry>)
    ensures removed
    ensures live == [SubFolder(2), File(1)]
  {
    var f := Filled([File(1), SubFolder(2), File(1)]);
    removed := f.RemoveFile(1);
    live := Values(f.entries[..f.count]);
  }
  /** Removing an entry that is not there reports false; a file and a sub-folder with the same number are different entries. */
  method RemoveMissing() returns (removed: bool, live: seq<FolderEntry>)
    ensures !removed
    ensures live == [File(3)]
  {
    var f := Filled([File(3)]);
    removed := f.RemoveFolder(3);
    live := Values(f.entries[..f.count]);
  }

  /** The seventeenth entry does not fit. */
  method CapacityIsSixteen() returns (results: seq<bool>)
    ensures |results| == 17
    ensures forall k :: 0 <= k < 16 ==> results[k]
    ensures !results[16]
  {
    var f := new Folder("full");
    results := [];
    for k := 0 to 17
      invariant f.Valid() && f.count == if k < 16 then k else 16
      invariant |results| == k && forall m :: 0 <= m < k ==> results[m] == (m < 16)
    {
      var added := f.AddEntry(File(k));
      results := results + [added];
    }
  }
}
