/** `list_2_dict`: the files found under a gene-set directory become a
    table keyed by file name, each entry holding the organism folder, the
    data-type folder and the full path; README files are skipped. */
module GenerateCsv {
  import opened Wrappers
  import opened Text

  type Entry = seq<string>

  datatype CsvError = TooFewComponents(path: string)   // index `len - 3` on a short path

  /** The `/`-separated components, empty ones kept. */
  function PathList(path: string): (r: seq<string>)
    ensures |r| >= 1
  {
    Split(path, '/')
  }

  function FileNameOf(path: string): string
  {
    PathList(path)[|PathList(path)| - 1]
  }

  /** A README file, ignoring ASCII case. */
  predicate IsReadme(path: string)
  {
    LowerAscii(FileNameOf(path)) == "readme.txt" || LowerAscii(FileNameOf(path)) == "readme"
  }

  /** The entry of a path with at least three components. */
  function EntryOf(path: string): (e: Entry)
    requires |PathList(path)| >= 3
    ensures |e| == 3 && e[2] == path
  {
    var c := PathList(path);
    [c[|c| - 3], c[|c| - 2], path]
  }

  /** The organism folder of a path with at least three components. */
  function OrgOf(path: string): string
    requires |PathList(path)| >= 3
  {
    PathList(path)[|PathList(path)| - 3]
  }

  /** The table and organism after the paths `files`, in order. */
  function Dict(files: seq<string>): Result<(map<string, Entry>, string), CsvError>
  {
    if |files| == 0 then Ok((map[], ""))
    else match Dict(files[..|files| - 1])
      case Err(e) => Err(e)
      case Ok((dict, org)) =>
        var path := files[|files| - 1];
        if IsReadme(path) then Ok((dict, org))
        else if |PathList(path)| < 3 then Err(TooFewComponents(path))
        else Ok((dict[FileNameOf(path) := EntryOf(path)], OrgOf(path)))
  }

  /** `list_2_dict`. */
  method ListToDict(fileList: seq<string>) returns (r: Result<(map<string, Entry>, string), CsvError>)
    ensures r == Dict(fileList)
  {
    var fileDict: map<string, Entry> := map[];
    var org: string := "";
    for i := 0 to |fileList|
      invariant Dict(fileList[..i]) == Ok((fileDict, org))
    {
      assert fileList[..i + 1][..i] == fileList[..i];
      var pathStr := fileList[i];
      var pathList := Split(pathStr, '/');
      var fileName := pathList[|pathList| - 1];
      if LowerAscii(fileName) != "readme.txt" && LowerAscii(fileName) != "readme" {
        if |pathList| < 3 {
          DictErrSticky(fileList, i + 1);
          return Err(TooFewComponents(pathStr));
        }
        fileDict := fileDict[fileName := [pathList[|pathList| - 3], pathList[|pathList| - 2], pathStr]];
        org := pathList[|pathList| - 3];
      }
    }
    assert fileList[..|fileList|] == fileList;
    r := Ok((fileDict, org));
  }

  lemma {:induction false} DictErrSticky(files: seq<string>, n: nat)
    requires n <= |files| && Dict(files[..n]).Err?
    ensures Dict(files) == Dict(files[..n])
    decreases |files| - n
  {
    if n < |files| {
      assert files[..n + 1][..n] == files[..n];
      DictErrSticky(files, n + 1);
    } else {
      assert files[..n] == files;
    }
  }

  /** One more path: a README leaves the table and organism as they were,
      any other path sets its entry and the organism. */
  lemma {:induction false} DictSnoc(files: seq<string>)
    requires |files| > 0 && Dict(files).Ok?
    ensures Dict(files[..|files| - 1]).Ok?
    ensures IsReadme(files[|files| - 1]) ==> Dict(files) == Dict(files[..|files| - 1])
    ensures !IsReadme(files[|files| - 1]) ==>
      |PathList(files[|files| - 1])| >= 3 &&
      Dict(files).value.0 == Dict(files[..|files| - 1]).value.0[FileNameOf(files[|files| - 1]) := EntryOf(files[|files| - 1])] &&
      Dict(files).value.1 == OrgOf(files[|files| - 1])
  {
  }

  /** A path that counts: not a README. */
  predicate Counted(files: seq<string>, i: int)
  {
    0 <= i < |files| && !IsReadme(files[i])
  }

  /** The run fails exactly when some non-README path has fewer than three
      components. */
  lemma {:induction false} DictOk(files: seq<string>)
    ensures Dict(files).Ok? <==> forall i :: Counted(files, i) ==> |PathList(files[i])| >= 3
  {
    if |files| > 0 {
      var p, path := files[..|files| - 1], files[|files| - 1];
      DictOk(p);
      assert forall i :: 0 <= i < |p| ==> p[i] == files[i];
      assert forall i :: Counted(p, i) <==> Counted(files, i) && i < |p|;
      if Dict(p).Err? {
        assert Dict(files).Err?;
      } else if IsReadme(path) {
        assert Dict(files) == Dict(p);
        assert !Counted(files, |p|);
      } else if |PathList(path)| < 3 {
        assert Dict(files).Err?;
        assert Counted(files, |p|);
      } else {
        assert Dict(files).Ok?;
      }
    }
  }

  /** Every non-README path's file name is a key. */
  lemma {:induction false} DictKeys(files: seq<string>)
    requires Dict(files).Ok?
    ensures forall i :: Counted(files, i) ==> FileNameOf(files[i]) in Dict(files).value.0
  {
    if |files| > 0 {
      var p, path := files[..|files| - 1], files[|files| - 1];
      DictSnoc(files);
      DictKeys(p);
      var before, after := Dict(p).value.0, Dict(files).value.0;
      assert forall k :: k in before ==> k in after;
      forall i | Counted(files, i) ensures FileNameOf(files[i]) in after {
        if i < |p| {
          assert files[i] == p[i];
          assert Counted(p, i);
          assert FileNameOf(p[i]) in before;
        } else {
          assert after == before[FileNameOf(path) := EntryOf(path)];
        }
      }
    }
  }



  /** The entry under `k` comes from path `i`, the last non-README path
      whose file name is `k`. */
  predicate EntryFrom(files: seq<string>, dict: map<string, Entry>, k: string, i: int)
  {
    k in dict && Counted(files, i) && FileNameOf(files[i]) == k && |PathList(files[i])| >= 3 &&
    dict[k] == EntryOf(files[i]) &&
    forall j :: i < j < |files| && Counted(files, j) ==> FileNameOf(files[j]) != k
  }

  /** Every key comes from a non-README path, and a later file of the same
      name overwrites an earlier one: the entry is that of the last. */
  lemma {:induction false} DictLastWins(files: seq<string>, k: string)
    requires Dict(files).Ok? && k in Dict(files).value.0
    ensures exists i :: EntryFrom(files, Dict(files).value.0, k, i)
  {
    var p, path := files[..|files| - 1], files[|files| - 1];
    var dict := Dict(files).value.0;
    if !IsReadme(path) && FileNameOf(path) == k {
      assert dict[k] == EntryOf(path);
      assert EntryFrom(files, dict, k, |files| - 1);
    } else {
      assert Dict(p).Ok? && k in Dict(p).value.0 && dict[k] == Dict(p).value.0[k];
      DictLastWins(p, k);
      var i :| EntryFrom(p, Dict(p).value.0, k, i);
      EntryFromSnoc(files, dict, Dict(p).value.0, k, i);
    }
  }

  /** A later path that is a README or has another file name keeps the
      entry where it came from. */
  lemma {:induction false} EntryFromSnoc(files: seq<string>, dict: map<string, Entry>,
                                          before: map<string, Entry>, k: string, i: int)
    requires |files| > 0 && EntryFrom(files[..|files| - 1], before, k, i)
    requires IsReadme(files[|files| - 1]) || FileNameOf(files[|files| - 1]) != k
    requires k in dict && dict[k] == before[k]
    ensures EntryFrom(files, dict, k, i)
  {
    var p := files[..|files| - 1];
    assert forall j :: 0 <= j < |p| ==> p[j] == files[j];
  }

  /** The organism is that of the last non-README path, and empty when
      there is none. */
  lemma {:induction false} DictOrg(files: seq<string>)
    requires Dict(files).Ok?
    ensures (forall i :: 0 <= i < |files| ==> IsReadme(files[i])) ==> Dict(files).value.1 == ""
    ensures forall i :: Counted(files, i) && (forall j :: i < j < |files| ==> IsReadme(files[j])) ==>
      |PathList(files[i])| >= 3 && Dict(files).value.1 == OrgOf(files[i])
  {
    if |files| > 0 {
      var p, path := files[..|files| - 1], files[|files| - 1];
      assert Dict(p).Ok?;
      DictOrg(p);
      assert forall i :: 0 <= i < |p| ==> p[i] == files[i];
      if IsReadme(path) {
        assert Dict(files) == Dict(p);
      } else {
        assert Dict(files).value.1 == OrgOf(path);
        assert forall i :: Counted(files, i) && (forall j :: i < j < |files| ==> IsReadme(files[j])) ==> i == |p|;
      }
    }
  }
}
