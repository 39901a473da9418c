/**
  The recent-files lists of the File menu: a fixed number of slots, most
  recent first, with empty strings for unused slots. Storing a file moves it
  to the front; if it was not listed, every entry moves down one slot and
  the oldest drops off.

  The menu items that show the list are not part of this model.
 */
module Recent {
  import opened Tiles

  /** The list after storing `file`: it moves to the front, and the entries
      before its old slot (or all but the last, if it was not listed) move
      down one slot. */
  function Promote(recent: seq<string>, file: string): (r: seq<string>)
    requires |recent| > 0
    ensures |r| == |recent| && r[0] == file
  {
    if file in recent then
      var k := IndexOf(recent, file);
      [file] + recent[..k] + recent[k + 1..]
    else [file] + recent[..|recent| - 1]
  }

  /** The loop of the store operation: carries the displaced entry down the
      list until it reaches the slot that held the file, or falls off the
      end. */
  method StoreRecent(recent: seq<string>, file: string) returns (r: seq<string>)
    requires |recent| > 0
    ensures r == Promote(recent, file)
  {
    r := recent;
    var last := file;
    var i := 0;
    while i < |r|
      invariant CarryInv(recent, file, i, last, r)
    {
      if r[i] == file {
        FoundStep(recent, file, i, last, r);
        r := r[i := last];
        return;
      }
      CarryStep(recent, file, i, last, r);
      last, r := r[i], r[i := last];
      i := i + 1;
    }
    assert recent[..|recent|] == recent;
  }

  /** After `i` rounds without meeting the file: the file and the first
      `i - 1` entries fill slots `0..i-1`, the rest is untouched, and the
      entry displaced last is carried along. */
  ghost predicate CarryInv(recent: seq<string>, file: string, i: nat, last: string, r: seq<string>)
  {
    && i <= |recent| && |r| == |recent|
    && file !in recent[..i]
    && r == ([file] + recent)[..i] + recent[i..]
    && last == ([file] + recent)[i]
  }

  lemma CarryStep(recent: seq<string>, file: string, i: nat, last: string, r: seq<string>)
    requires CarryInv(recent, file, i, last, r) && i < |r| && r[i] != file
    ensures CarryInv(recent, file, i + 1, r[i], r[i := last])
  {
    assert recent[..i + 1] == recent[..i] + [recent[i]];
    assert ([file] + recent)[..i + 1] == ([file] + recent)[..i] + [last];
  }

  lemma FoundStep(recent: seq<string>, file: string, i: nat, last: string, r: seq<string>)
    requires CarryInv(recent, file, i, last, r) && i < |recent| && recent[i] == file
    ensures r[i := last] == Promote(recent, file)
  {
    IndexUnique(recent, file, i);
    var pre := ([file] + recent)[..i];
    assert r[i := last] == pre + [last] + recent[i + 1..];
    assert pre + [last] == ([file] + recent)[..i + 1] == [file] + recent[..i];
  }

  /** The recent-tileset update: the same move to the front, of the most
      recently loaded tileset file. */
  method StoreRecentTileset(recent: seq<string>, tilesetFiles: seq<string>) returns (r: seq<string>)
    requires |recent| > 0 && |tilesetFiles| > 0
    ensures r == Promote(recent, tilesetFiles[|tilesetFiles| - 1])
  {
    r := StoreRecent(recent, tilesetFiles[|tilesetFiles| - 1]);
  }

  /** The list keeps its length, the stored file heads it, and only the
      oldest entry can be lost: a listed file keeps every entry, an unlisted
      one drops the last. */
  lemma PromoteShape(recent: seq<string>, file: string)
    requires |recent| > 0
    ensures |Promote(recent, file)| == |recent|
    ensures Promote(recent, file)[0] == file
    ensures file in recent ==> forall x :: x in Promote(recent, file) <==> x in recent
    ensures file !in recent ==>
      forall x :: x in Promote(recent, file) <==> x == file || x in recent[..|recent| - 1]
  {
    if file in recent {
      var k := IndexOf(recent, file);
      assert recent == recent[..k] + [file] + recent[k + 1..];
    }
  }

  /** No two used slots name the same file. */
  ghost predicate DistinctEntries(recent: seq<string>)
  {
    forall i, j :: 0 <= i < j < |recent| && recent[i] == recent[j] ==> recent[i] == ""
  }

  /** Storing keeps the used slots distinct. */
  lemma PromoteKeepsDistinct(recent: seq<string>, file: string)
    requires |recent| > 0 && DistinctEntries(recent)
    ensures DistinctEntries(Promote(recent, file))
  {
    var r := Promote(recent, file);
    var rest := if file in recent then recent[..IndexOf(recent, file)] + recent[IndexOf(recent, file) + 1..]
                else recent[..|recent| - 1];
    assert r == [file] + rest;
    if file in recent {
      var k := IndexOf(recent, file);
      assert file == "" || file !in recent[k + 1..];
      forall i, j | 0 <= i < j < |rest| && rest[i] == rest[j] ensures rest[i] == "" {
        var i', j' := if i < k then i else i + 1, if j < k then j else j + 1;
        assert rest[i] == recent[i'] && rest[j] == recent[j'];
      }
    } else {
      forall i, j | 0 <= i < j < |rest| && rest[i] == rest[j] ensures rest[i] == "" {
        assert rest[i] == recent[i] && rest[j] == recent[j];
      }
    }
  }

  /** Storing the file that already heads the list changes nothing, so
      storing twice is storing once. */
  lemma PromoteIdempotent(recent: seq<string>, file: string)
    requires |recent| > 0
    ensures Promote(Promote(recent, file), file) == Promote(recent, file)
  {
    var r := Promote(recent, file);
    assert r[0] == file;
    assert IndexOf(r, file) == 0;
    assert Promote(r, file) == [file] + r[..0] + r[1..];
    assert [file] + r[..0] + r[1..] == r;
  }
}
