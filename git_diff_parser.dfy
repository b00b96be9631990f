/**
 * `GitDiffParser::Patches`: an ordered collection of patches, the scanner
 * that builds one from the text of `git diff`, and the queries on it.
 */
module GitDiffParser {
  import opened Wrappers
  import opened RubyText
  import opened PatchRecord
  import opened DiffScanner
  import ScannerProperties

  /**
   * The collection: a plain ordered sequence of patches, in the order they
   * were emitted, duplicates kept. `Patches[p1, p2]` and `Patches.new(list)`
   * are this constructor applied to the list.
   */
  datatype Patches = Patches(items: seq<Patch>)
  {
    /**
     * `Patches.parse`: scan the lines of `git diff` output and emit one patch
     * per section whose buffer holds lines, in the order the sections end.
     */
    static method Parse(contents: string) returns (parsed: Patches)
      ensures parsed.items == ParseText(contents)
      ensures contents == "" ==> parsed.items == []
      ensures forall i :: 0 <= i < |parsed.items| ==>
                var p := parsed.items[i];
                p.lines != [] && p.Body()[|p.Body()| - 1] == '\n'
      ensures |parsed.items| <= ScannerProperties.MarkerCount(ChompAll(Lines(contents)))
      ensures ScannerProperties.AllLines(parsed.items) <= ScannerProperties.Accepted(false, ChompAll(Lines(contents)))
    {
      var lines := Lines(contents);
      var lineCount := |lines|;
      ghost var chomped := ChompAll(lines);

      var body := false;
      var fileName: Option<string> := Some("");
      var origFileName: Option<string> := Some("");
      var patch: seq<string> := [];
      var diffType := Change;
      var result: seq<Patch> := [];

      for count := 0 to lineCount
        invariant ScanState(body, fileName, origFileName, patch, diffType, result)
                  == Run(Start, chomped[..count], count == lineCount)
      {
        var line := Chomp(lines[count]);
        assert line == chomped[count];
        RunPrefixStep(chomped, count);
        var kind := Classify(line);
        ghost var next := Apply(ScanState(body, fileName, origFileName, patch, diffType, result),
                                kind, line, count + 1 == lineCount);
        match kind {
          case SectionStart =>
            if patch != [] {
              result := result + [Patch(patch, fileName, origFileName, diffType)];
              patch := [];
              fileName := Some("");
              origFileName := Some("");
              diffType := Change;
            }
            body := false;
            assert ScanState(body, fileName, origFileName, patch, diffType, result) == next;
          case OrigFile(p) =>
            origFileName := Some(p);
            assert ScanState(body, fileName, origFileName, patch, diffType, result) == next;
          case OrigFileAbsent =>
            origFileName := None;
            assert ScanState(body, fileName, origFileName, patch, diffType, result) == next;
          case NewFile(p) =>
            fileName := Some(p);
            body := true;
            diffType := if origFileName.None? then Add else Change;
            assert ScanState(body, fileName, origFileName, patch, diffType, result) == next;
          case NewFileAbsent =>
            fileName := origFileName;
            body := true;
            diffType := Delete;
            assert ScanState(body, fileName, origFileName, patch, diffType, result) == next;
          case BodyLine =>
            if body {
              patch := patch + [line];
            }
            if patch != [] && body && lineCount == count + 1 {
              result := result + [Patch(patch, fileName, origFileName, diffType)];
              patch := [];
              fileName := Some("");
              origFileName := Some("");
              diffType := Change;
            }
            assert ScanState(body, fileName, origFileName, patch, diffType, result) == next;
          case Ignored =>
        }
      }
      assert chomped[..lineCount] == chomped;
      parsed := Patches(result);
      ScannerProperties.ParseTextFacts(contents);
    }

    /** `files`: the file of every patch, in collection order, duplicates kept. */
    function Files(): (r: seq<Option<string>>)
      ensures |r| == |items|
      ensures forall i :: 0 <= i < |items| ==> r[i] == items[i].file
      decreases |items|
    {
      if items == [] then [] else [items[0].file] + Patches(items[1..]).Files()
    }

    /**
     * `secure_hashes`: the secure hash of every patch, in collection order.
     * How a patch's hash is derived is not part of this model: `hashOf`
     * stands for the patch's own `secure_hash` reader.
     */
    function SecureHashes(hashOf: Patch -> string): (r: seq<string>)
      ensures |r| == |items|
      ensures forall i :: 0 <= i < |items| ==> r[i] == hashOf(items[i])
      decreases |items|
    {
      if items == [] then [] else [hashOf(items[0])] + Patches(items[1..]).SecureHashes(hashOf)
    }

    /** `find_patch_by_file`: the first patch whose file equals `file`, or nil. */
    function FindPatchByFile(file: Option<string>): (r: Option<Patch>)
      ensures r.None? <==> forall i :: 0 <= i < |items| ==> items[i].file != file
      ensures r.Some? ==>
                exists i :: 0 <= i < |items| && items[i] == r.value && items[i].file == file
                  && forall j :: 0 <= j < i ==> items[j].file != file
      decreases |items|
    {
      if items == [] then None
      else if items[0].file == file then Some(items[0])
      else
        var r := Patches(items[1..]).FindPatchByFile(file);
        assert r.Some? ==> exists i :: 0 < i < |items| && items[i] == r.value && items[i].file == file
                             && forall j :: 0 <= j < i ==> items[j].file != file by {
          if r.Some? {
            var i' :| 0 <= i' < |items| - 1 && items[1..][i'] == r.value && items[1..][i'].file == file
                      && forall j :: 0 <= j < i' ==> items[1..][j].file != file;
            assert forall j :: 0 <= j < i' + 1 ==> items[j].file != file by {
              forall j | 0 <= j < i' + 1 ensures items[j].file != file {
                if j > 0 { assert items[j] == items[1..][j - 1]; }
              }
            }
          }
        }
        r
    }

    /** `find_patch_by_secure_hash`: the first patch whose secure hash is `hash`, or nil. */
    function FindPatchBySecureHash(hash: string, hashOf: Patch -> string): (r: Option<Patch>)
      ensures r.None? <==> forall i :: 0 <= i < |items| ==> hashOf(items[i]) != hash
      ensures r.Some? ==>
                exists i :: 0 <= i < |items| && items[i] == r.value && hashOf(items[i]) == hash
                  && forall j :: 0 <= j < i ==> hashOf(items[j]) != hash
      decreases |items|
    {
      if items == [] then None
      else if hashOf(items[0]) == hash then Some(items[0])
      else
        var r := Patches(items[1..]).FindPatchBySecureHash(hash, hashOf);
        assert r.Some? ==> exists i :: 0 < i < |items| && items[i] == r.value && hashOf(items[i]) == hash
                             && forall j :: 0 <= j < i ==> hashOf(items[j]) != hash by {
          if r.Some? {
            var i' :| 0 <= i' < |items| - 1 && items[1..][i'] == r.value && hashOf(items[1..][i']) == hash
                      && forall j :: 0 <= j < i' ==> hashOf(items[1..][j]) != hash;
            assert forall j :: 0 <= j < i' + 1 ==> hashOf(items[j]) != hash by {
              forall j | 0 <= j < i' + 1 ensures hashOf(items[j]) != hash {
                if j > 0 { assert items[j] == items[1..][j - 1]; }
              }
            }
          }
        }
        r
    }
  }

  /**
   * `find_patch_by_file` agrees with `files`: a file is found exactly when
   * it is listed, and what is found is the patch at its first listed
   * position.
   */
  lemma FindByFileAgreesWithFiles(ps: Patches, file: Option<string>)
    ensures ps.FindPatchByFile(file).Some? <==> file in ps.Files()
    ensures ps.FindPatchByFile(file).Some? ==>
              exists i :: 0 <= i < |ps.items| && ps.Files()[i] == file && file !in ps.Files()[..i]
                && ps.FindPatchByFile(file).value == ps.items[i]
  {
    var files := ps.Files();
    var r := ps.FindPatchByFile(file);
    if r.Some? {
      var i :| 0 <= i < |ps.items| && ps.items[i] == r.value && ps.items[i].file == file
                && forall j :: 0 <= j < i ==> ps.items[j].file != file;
      assert files[i] == file;
      assert file !in files[..i] by {
        forall j | 0 <= j < i ensures files[..i][j] != file {
          assert files[..i][j] == ps.items[j].file;
        }
      }
      assert file in files;
    } else {
      forall j | 0 <= j < |files| ensures files[j] != file {
        assert files[j] == ps.items[j].file;
      }
    }
  }

  /**
   * `find_patch_by_secure_hash` agrees with `secure_hashes` in the same
   * way.
   */
  lemma FindBySecureHashAgreesWithSecureHashes(ps: Patches, hash: string, hashOf: Patch -> string)
    ensures ps.FindPatchBySecureHash(hash, hashOf).Some? <==> hash in ps.SecureHashes(hashOf)
    ensures ps.FindPatchBySecureHash(hash, hashOf).Some? ==>
              exists i :: 0 <= i < |ps.items| && ps.SecureHashes(hashOf)[i] == hash
                && hash !in ps.SecureHashes(hashOf)[..i]
                && ps.FindPatchBySecureHash(hash, hashOf).value == ps.items[i]
  {
    var hashes := ps.SecureHashes(hashOf);
    var r := ps.FindPatchBySecureHash(hash, hashOf);
    if r.Some? {
      var i :| 0 <= i < |ps.items| && ps.items[i] == r.value && hashOf(ps.items[i]) == hash
                && forall j :: 0 <= j < i ==> hashOf(ps.items[j]) != hash;
      assert hashes[i] == hash;
      assert hash !in hashes[..i] by {
        forall j | 0 <= j < i ensures hashes[..i][j] != hash {
          assert hashes[..i][j] == hashOf(ps.items[j]);
        }
      }
      assert hash in hashes;
    } else {
      forall j | 0 <= j < |hashes| ensures hashes[j] != hash {
        assert hashes[j] == hashOf(ps.items[j]);
      }
    }
  }
}
