/** `RemoveDuplicates` of remove_duplicates.cpp: the live documents are scanned in ascending id
    order, a document whose set of words was already seen is recorded as a duplicate, and the
    recorded duplicates are removed from the server after the scan. */
module Duplicates {
  import opened Wrappers
  import opened Index
  import Sorting
  import Server

  /** The live ids in the order the server's `begin()`/`end()` visit them. */
  ghost function InOrder(ids: set<int>): (r: seq<int>)
    ensures forall i, j :: 0 <= i < j < |r| ==> r[i] < r[j]
    ensures forall x :: x in r <==> x in ids
  {
    Sorting.IntLessIsStrictTotalOrder();
    Sorting.AscendingSpec(ids, Sorting.IntLess);
    Sorting.Ascending(ids, Sorting.IntLess)
  }

  /** `unique_docs` after visiting `ids`: the word sets of the visited documents that have a
      non-empty forward entry. */
  ghost function Seen(ids: seq<int>, f: Forward): set<set<string>>
  {
    set i | 0 <= i < |ids| && ids[i] in f && f[ids[i]].Keys != {} :: f[ids[i]].Keys
  }

  /** The document at position `i` has a non-empty word set that an earlier document also has. */
  ghost predicate DuplicateAt(ids: seq<int>, f: Forward, i: int)
    requires 0 <= i < |ids|
  {
    && ids[i] in f && f[ids[i]].Keys != {}
    && exists j :: 0 <= j < i && ids[j] in f && f[ids[j]].Keys == f[ids[i]].Keys
  }

  /** The scan: `OutOfRange` (from `GetWordFrequencies`) at the first id without a forward
      entry; otherwise `ids_of_dubl`, the ids whose non-empty word set is already in
      `unique_docs`, in visiting order. Empty entries are skipped. */
  ghost function Scan(ids: seq<int>, f: Forward): Result<seq<int>>
    decreases |ids|
  {
    if |ids| == 0 then Ok([])
    else
      match Scan(ids[..|ids| - 1], f)
      case Err(e) => Err(e)
      case Ok(dups) =>
        var id := ids[|ids| - 1];
        if id !in f then Err(OutOfRange)
        else if f[id].Keys == {} then Ok(dups)
        else if f[id].Keys in Seen(ids[..|ids| - 1], f) then Ok(dups + [id])
        else Ok(dups)
  }

  lemma SeenSnoc(ids: seq<int>, f: Forward)
    requires |ids| > 0
    ensures var pre, id := ids[..|ids| - 1], ids[|ids| - 1];
      Seen(ids, f) == Seen(pre, f) + (if id in f && f[id].Keys != {} then {f[id].Keys} else {})
  {
    var pre, id := ids[..|ids| - 1], ids[|ids| - 1];
    var extra: set<set<string>> := if id in f && f[id].Keys != {} then {f[id].Keys} else {};
    forall ws | ws in Seen(ids, f) ensures ws in Seen(pre, f) + extra {
      var i :| 0 <= i < |ids| && ids[i] in f && f[ids[i]].Keys != {} && f[ids[i]].Keys == ws;
      if i < |pre| {
        assert pre[i] == ids[i];
      }
    }
    forall ws | ws in Seen(pre, f) + extra ensures ws in Seen(ids, f) {
      if ws in Seen(pre, f) {
        var i :| 0 <= i < |pre| && pre[i] in f && f[pre[i]].Keys != {} && f[pre[i]].Keys == ws;
        assert ids[i] == pre[i];
      } else {
        assert ids[|ids| - 1] == id;
      }
    }
  }

  /** The scan fails exactly when some visited id has no forward entry, and then with
      `OutOfRange`. */
  lemma {:induction false} ScanOk(ids: seq<int>, f: Forward)
    ensures Scan(ids, f).Ok? <==> forall k :: 0 <= k < |ids| ==> ids[k] in f
    ensures Scan(ids, f).Err? ==> Scan(ids, f) == Err(OutOfRange)
    decreases |ids|
  {
    if |ids| > 0 {
      var pre := ids[..|ids| - 1];
      ScanOk(pre, f);
      assert forall k :: 0 <= k < |pre| ==> pre[k] == ids[k];
    }
  }

  /** A failed prefix of the scan fails the whole scan with the same error. */
  lemma {:induction false} ScanErrSticky(ids: seq<int>, i: nat, f: Forward)
    requires i <= |ids| && Scan(ids[..i], f).Err?
    ensures Scan(ids, f) == Scan(ids[..i], f)
    decreases |ids|
  {
    if i < |ids| {
      var pre := ids[..|ids| - 1];
      assert pre[..i] == ids[..i];
      ScanErrSticky(pre, i, f);
    } else {
      assert ids[..i] == ids;
    }
  }

  /** An id is recorded as a duplicate exactly when it is visited at a position whose word set
      is non-empty and also belongs to an earlier document; every recorded id is visited. */
  lemma {:induction false} ScanSpec(ids: seq<int>, f: Forward)
    requires Scan(ids, f).Ok?
    ensures forall x :: x in Scan(ids, f).value <==> exists i :: 0 <= i < |ids| && ids[i] == x && DuplicateAt(ids, f, i)
    decreases |ids|
  {
    if |ids| > 0 {
      var pre, id := ids[..|ids| - 1], ids[|ids| - 1];
      ScanSpec(pre, f);
      assert forall k :: 0 <= k < |pre| ==> pre[k] == ids[k];
      assert forall k :: 0 <= k < |pre| ==> (DuplicateAt(pre, f, k) <==> DuplicateAt(ids, f, k));
      var last := |ids| - 1;
      if f[id].Keys != {} {
        if f[id].Keys in Seen(pre, f) {
          var j :| 0 <= j < |pre| && pre[j] in f && f[pre[j]].Keys != {} && f[pre[j]].Keys == f[id].Keys;
          assert DuplicateAt(ids, f, last);
        }
      }
    }
  }

  /** First occurrence wins: every non-empty word set met in the scan belongs to a document at
      or before that position which is not a duplicate. */
  lemma {:induction false} FirstOccurrenceKept(ids: seq<int>, f: Forward, i: int)
    requires 0 <= i < |ids| && ids[i] in f && f[ids[i]].Keys != {}
    ensures exists j :: 0 <= j <= i && ids[j] in f && f[ids[j]].Keys == f[ids[i]].Keys && !DuplicateAt(ids, f, j)
    decreases i
  {
    if DuplicateAt(ids, f, i) {
      var j :| 0 <= j < i && ids[j] in f && f[ids[j]].Keys == f[ids[i]].Keys;
      FirstOccurrenceKept(ids, f, j);
    }
  }

  /** Only the words of the forward entries matter, not their frequencies. */
  lemma {:induction false} ScanOnlyWords(ids: seq<int>, f: Forward, g: Forward)
    requires forall k :: 0 <= k < |ids| ==> (ids[k] in f <==> ids[k] in g)
    requires forall k :: 0 <= k < |ids| && ids[k] in f ==> f[ids[k]].Keys == g[ids[k]].Keys
    ensures Scan(ids, f) == Scan(ids, g)
    decreases |ids|
  {
    if |ids| > 0 {
      var pre := ids[..|ids| - 1];
      assert forall k :: 0 <= k < |pre| ==> pre[k] == ids[k];
      ScanOnlyWords(pre, f, g);
      assert Seen(pre, f) == Seen(pre, g) by {
        forall ws | ws in Seen(pre, f) ensures ws in Seen(pre, g) {
          var k :| 0 <= k < |pre| && pre[k] in f && f[pre[k]].Keys != {} && f[pre[k]].Keys == ws;
          assert g[pre[k]].Keys == ws;
        }
        forall ws | ws in Seen(pre, g) ensures ws in Seen(pre, f) {
          var k :| 0 <= k < |pre| && pre[k] in g && g[pre[k]].Keys != {} && g[pre[k]].Keys == ws;
          assert f[pre[k]].Keys == ws;
        }
      }
    }
  }

  /** The ids of a sequence, as a set. */
  function IdSet(s: seq<int>): set<int>
  {
    set x | x in s
  }

  /** The inverted index after `RemoveDocument` of each id of `ds` in turn. */
  ghost function RemoveAll(p: Postings, f: Forward, ds: seq<int>): Postings
    requires forall k :: 0 <= k < |ds| ==> ds[k] in f
    decreases |ds|
  {
    if |ds| == 0 then p
    else RemovePostings(RemoveAll(p, f, ds[..|ds| - 1]), f[ds[|ds| - 1]].Keys, ds[|ds| - 1])
  }

  /** After the removals every word keeps its key; a posting survives exactly when its
      document was not removed through that word, and a surviving posting keeps its value. */
  lemma {:induction false} RemoveAllSpec(p: Postings, f: Forward, ds: seq<int>)
    requires forall k :: 0 <= k < |ds| ==> ds[k] in f
    ensures RemoveAll(p, f, ds).Keys == p.Keys
    ensures forall w, d :: w in p ==> (d in RemoveAll(p, f, ds)[w] <==> d in p[w] && !(d in ds && w in f[d]))
    ensures forall w, d :: w in p && d in RemoveAll(p, f, ds)[w] ==> d in p[w] && RemoveAll(p, f, ds)[w][d] == p[w][d]
    decreases |ds|
  {
    if |ds| > 0 {
      var pre := ds[..|ds| - 1];
      assert forall k :: 0 <= k < |pre| ==> pre[k] == ds[k];
      RemoveAllSpec(p, f, pre);
      forall d ensures d in ds <==> d in pre || d == ds[|ds| - 1] {
        assert ds == pre + [ds[|ds| - 1]];
      }
    }
  }

  /** One step of the scan: the visited id either fails the scan, is skipped, is recorded,
      or adds its word set to `unique_docs`. */
  lemma ScanStep(ids: seq<int>, f: Forward, i: nat)
    requires i < |ids|
    ensures var id := ids[i];
      && Seen(ids[..i + 1], f) == Seen(ids[..i], f) + (if id in f && f[id].Keys != {} then {f[id].Keys} else {})
      && Scan(ids[..i + 1], f) ==
           match Scan(ids[..i], f)
           case Err(e) => Err(e)
           case Ok(dups) =>
             if id !in f then Err(OutOfRange)
             else if f[id].Keys == {} then Ok(dups)
             else if f[id].Keys in Seen(ids[..i], f) then Ok(dups + [id])
             else Ok(dups)
  {
    var step := ids[..i + 1];
    assert step[..i] == ids[..i] && step[i] == ids[i];
    SeenSnoc(step, f);
  }

  /** Every recorded duplicate has a forward entry. */
  lemma ScanFindsForwardEntries(ids: seq<int>, f: Forward)
    requires Scan(ids, f).Ok?
    ensures forall k :: 0 <= k < |Scan(ids, f).value| ==> Scan(ids, f).value[k] in f
  {
    var dups := Scan(ids, f).value;
    ScanSpec(ids, f);
    forall k | 0 <= k < |dups| ensures dups[k] in f {
      assert dups[k] in dups;
      var i :| 0 <= i < |ids| && ids[i] == dups[k] && DuplicateAt(ids, f, i);
    }
  }

  /** One more removal extends the removed prefix by one id. */
  lemma RemoveAllStep(p: Postings, f: Forward, ds: seq<int>, j: nat)
    requires j < |ds| && forall k :: 0 <= k < |ds| ==> ds[k] in f
    ensures RemoveAll(p, f, ds[..j + 1]) == RemovePostings(RemoveAll(p, f, ds[..j]), f[ds[j]].Keys, ds[j])
    ensures IdSet(ds[..j + 1]) == IdSet(ds[..j]) + {ds[j]}
  {
    var step := ds[..j + 1];
    assert step[..j] == ds[..j] && step[j] == ds[j];
  }

  /** `words_of_doc`: the words of a frequency map, inserted one at a time. */
  method WordsOf(m: map<string, real>) returns (words: set<string>)
    ensures words == m.Keys
  {
    words := {};
    var rest := m.Keys;
    while rest != {}
      invariant words + rest == m.Keys && words !! rest
      decreases |rest|
    {
      var w :| w in rest;
      words := words + {w};
      rest := rest - {w};
    }
  }

  /** The first loop of `RemoveDuplicates`, which only reads the server. */
  method FindDuplicates(server: Server.SearchServer) returns (r: Result<seq<int>>)
    ensures r == Scan(InOrder(server.documentIds), server.idsToWordFreq)
  {
    var ids := server.DocumentIds();
    assert ids == InOrder(server.documentIds);
    var f := server.idsToWordFreq;
    var unique: set<set<string>> := {};
    var dups: seq<int> := [];
    var i := 0;
    while i < |ids|
      invariant 0 <= i <= |ids|
      invariant Scan(ids[..i], f) == Ok(dups)
      invariant unique == Seen(ids[..i], f)
    {
      ScanStep(ids, f, i);
      var data := server.GetWordFrequencies(ids[i]);
      if data.Err? {
        ScanErrSticky(ids, i + 1, f);
        return Err(data.error);
      }
      if data.value != map[] {
        var words := WordsOf(data.value);
        if words in unique {
          dups := dups + [ids[i]];
        } else {
          unique := unique + {words};
        }
      } else {
        assert data.value.Keys == {};
      }
      i := i + 1;
    }
    assert ids[..i] == ids;
    r := Ok(dups);
  }

  /** `RemoveDuplicates`: when the scan fails nothing is removed; otherwise exactly the
      recorded duplicates are removed, after the scan and in their order, and every other
      document, its postings and all forward entries stay as they were. */
  method RemoveDuplicates(server: Server.SearchServer) returns (o: Outcome)
    requires server.Valid()
    modifies server
    ensures server.Valid()
    ensures Scan(InOrder(old(server.documentIds)), old(server.idsToWordFreq)).Err? ==>
      o == Fail(OutOfRange) && unchanged(server)
    ensures var s := Scan(InOrder(old(server.documentIds)), old(server.idsToWordFreq));
      s.Ok? ==>
        && o == Pass
        && (forall k :: 0 <= k < |s.value| ==> s.value[k] in old(server.idsToWordFreq))
        && server.documents == old(server.documents) - IdSet(s.value)
        && server.documentIds == old(server.documentIds) - IdSet(s.value)
        && server.wordToDocumentFreqs == RemoveAll(old(server.wordToDocumentFreqs), old(server.idsToWordFreq), s.value)
        && server.idsToWordFreq == old(server.idsToWordFreq) && server.storage == old(server.storage)
  {
    var found := FindDuplicates(server);
    ghost var ids := InOrder(server.documentIds);
    ghost var f := server.idsToWordFreq;
    if found.Err? {
      ScanOk(ids, f);
      return Fail(found.error);
    }
    var dups := found.value;
    ScanFindsForwardEntries(ids, f);
    var j := 0;
    while j < |dups|
      invariant 0 <= j <= |dups|
      invariant server.Valid()
      invariant server.idsToWordFreq == f && server.storage == old(server.storage)
      invariant server.documents == old(server.documents) - IdSet(dups[..j])
      invariant server.documentIds == old(server.documentIds) - IdSet(dups[..j])
      invariant server.wordToDocumentFreqs == RemoveAll(old(server.wordToDocumentFreqs), f, dups[..j])
    {
      RemoveAllStep(old(server.wordToDocumentFreqs), f, dups, j);
      var _ := server.RemoveDocument(dups[j]);
      j := j + 1;
    }
    assert dups[..j] == dups;
    o := Pass;
  }
}
