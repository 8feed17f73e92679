/**
 * Draft removal in a production build (`deleteDrafts` in build.js): every
 * source marked as a draft is dropped from the build, and its parent
 * directory is recorded so that the generated directory can be deleted
 * afterwards. Other builds keep every source.
 */
module Drafts {
  import opened PosixPath

  /** A source in the build, with the draft flag its metadata carries. */
  datatype FileData = FileData(draft: bool, contents: string)

  /** The build's sources after removal, and the recorded directories. */
  datatype Pruned = Pruned(files: map<string, FileData>, drafts: seq<string>)

  predicate Distinct(keys: seq<string>) {
    forall i, j :: 0 <= i < j < |keys| ==> keys[i] != keys[j]
  }

  /** Whether `p` names a draft source. */
  predicate IsDraft(files: map<string, FileData>, p: string) {
    p in files && files[p].draft
  }

  /** Visits the keys in order, dropping each draft and recording its directory. */
  function Prune(keys: seq<string>, files: map<string, FileData>, drafts: seq<string>): Pruned
    decreases |keys|
  {
    if |keys| == 0 then Pruned(files, drafts)
    else
      var k := keys[0];
      if IsDraft(files, k) then Prune(keys[1..], files - {k}, drafts + [Dirname(k)])
      else Prune(keys[1..], files, drafts)
  }

  /** The step: in a production build the sources are visited in key order; otherwise nothing changes. */
  function DeleteDrafts(isProd: bool, keys: seq<string>, files: map<string, FileData>, drafts: seq<string>): Pruned
    requires Distinct(keys) && forall p :: p in files <==> p in keys
  {
    if isProd then Prune(keys, files, drafts) else Pruned(files, drafts)
  }

  /** The directories of the drafts among `keys`, in key order. */
  function DraftDirs(keys: seq<string>, files: map<string, FileData>): seq<string>
    decreases |keys|
  {
    if |keys| == 0 then []
    else (if IsDraft(files, keys[0]) then [Dirname(keys[0])] else []) + DraftDirs(keys[1..], files)
  }

  /**
   * Visiting distinct keys removes exactly the drafts among them, leaves every
   * other source as it was, and appends the drafts' directories in key order.
   */
  lemma {:induction false} PruneSpec(keys: seq<string>, files: map<string, FileData>, drafts: seq<string>)
    requires Distinct(keys)
    ensures var r := Prune(keys, files, drafts);
      && (forall p :: p in r.files <==> p in files && !(p in keys && files[p].draft))
      && (forall p :: p in r.files ==> r.files[p] == files[p])
      && r.drafts == drafts + DraftDirs(keys, files)
    decreases |keys|
  {
    if |keys| > 0 {
      var k := keys[0];
      assert Distinct(keys[1..]);
      assert k !in keys[1..];
      if IsDraft(files, k) {
        var rest := files - {k};
        PruneSpec(keys[1..], rest, drafts + [Dirname(k)]);
        DraftDirsAgree(keys[1..], files, rest);
        assert drafts + [Dirname(k)] + DraftDirs(keys[1..], files) == drafts + DraftDirs(keys, files);
      } else {
        PruneSpec(keys[1..], files, drafts);
      }
    }
  }

  /** The draft directories depend only on the sources the keys name. */
  lemma {:induction false} DraftDirsAgree(keys: seq<string>, a: map<string, FileData>, b: map<string, FileData>)
    requires forall p :: p in keys ==> (IsDraft(a, p) <==> IsDraft(b, p))
    ensures DraftDirs(keys, a) == DraftDirs(keys, b)
    decreases |keys|
  {
    if |keys| > 0 {
      DraftDirsAgree(keys[1..], a, b);
    }
  }

  /** A recorded directory is the directory of a draft, and every draft's directory is recorded. */
  lemma {:induction false} DraftDirsMembers(keys: seq<string>, files: map<string, FileData>)
    ensures forall d :: d in DraftDirs(keys, files) ==> exists p :: p in keys && IsDraft(files, p) && d == Dirname(p)
    ensures forall p :: p in keys && IsDraft(files, p) ==> Dirname(p) in DraftDirs(keys, files)
    decreases |keys|
  {
    if |keys| > 0 {
      DraftDirsMembers(keys[1..], files);
      var head := if IsDraft(files, keys[0]) then [Dirname(keys[0])] else [];
      assert DraftDirs(keys, files) == head + DraftDirs(keys[1..], files);
      forall d | d in DraftDirs(keys, files)
        ensures exists p :: p in keys && IsDraft(files, p) && d == Dirname(p)
      {
        if d in head {
          assert keys[0] in keys;
        } else {
          var p :| p in keys[1..] && IsDraft(files, p) && d == Dirname(p);
          assert p in keys;
        }
      }
      forall p | p in keys && IsDraft(files, p) ensures Dirname(p) in DraftDirs(keys, files) {
        if p != keys[0] {
          assert p in keys[1..];
        }
      }
    }
  }

  /** Outside production nothing is removed and nothing recorded. */
  lemma DevelopmentKeepsDrafts(keys: seq<string>, files: map<string, FileData>, drafts: seq<string>)
    requires Distinct(keys) && forall p :: p in files <==> p in keys
    ensures DeleteDrafts(false, keys, files, drafts) == Pruned(files, drafts)
  {
  }

  /**
   * A production build keeps exactly the sources that are not drafts,
   * unchanged, and after the earlier entries records the parent directory of
   * every removed draft and nothing else.
   */
  lemma ProductionDropsDrafts(keys: seq<string>, files: map<string, FileData>, drafts: seq<string>)
    requires Distinct(keys) && forall p :: p in files <==> p in keys
    ensures var r := DeleteDrafts(true, keys, files, drafts);
      && (forall p :: p in r.files <==> p in files && !files[p].draft)
      && (forall p :: p in r.files ==> r.files[p] == files[p])
      && |drafts| <= |r.drafts| && r.drafts[..|drafts|] == drafts
      && (forall d :: d in r.drafts[|drafts|..] <==> exists p :: IsDraft(files, p) && d == Dirname(p))
  {
    PruneSpec(keys, files, drafts);
    DraftDirsMembers(keys, files);
    var r := DeleteDrafts(true, keys, files, drafts);
    assert r.drafts[..|drafts|] == drafts;
    assert r.drafts[|drafts|..] == DraftDirs(keys, files);
  }
}
