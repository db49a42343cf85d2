/** File-name handling of genSrt.py: `clean_filename`, which strips the
    characters a file name may not contain, and `rename_files`, which picks a
    destination that does not exist yet and moves the file there.

    The filesystem is the finite set of paths that exist; `os.path.exists`
    is membership in that set and `os.rename` is `Move` on it. */
module FileNames {
  import opened Paths

  // The eight characters of the regular expression class that clean_filename removes.
  const Forbidden: set<char> := {'/', '*', '?', ':', '"', '<', '>', '|'}

  predicate IsClean(s: string)
  {
    forall i :: 0 <= i < |s| ==> s[i] !in Forbidden
  }

  /** clean_filename: every occurrence of a forbidden character is deleted. */
  function CleanFilename(filename: string): (r: string)
    ensures IsClean(r)
    ensures |r| <= |filename|
    ensures forall c :: c in r ==> c in filename
  {
    if filename == [] then []
    else (if filename[0] in Forbidden then [] else [filename[0]]) + CleanFilename(filename[1..])
  }

  /** Cleaning works character by character: it distributes over
      concatenation, so what is kept stays in its original order. */
  lemma {:induction false} CleanFilenameConcat(a: string, b: string)
    ensures CleanFilename(a + b) == CleanFilename(a) + CleanFilename(b)
  {
    if a == [] {
      assert a + b == b;
    } else {
      assert (a + b)[0] == a[0];
      assert (a + b)[1..] == a[1..] + b;
      CleanFilenameConcat(a[1..], b);
    }
  }

  /** A name without forbidden characters is left as it is. */
  lemma {:induction false} CleanFilenameOfClean(s: string)
    requires IsClean(s)
    ensures CleanFilename(s) == s
  {
    if s != [] {
      assert s[0] !in Forbidden;
      CleanFilenameOfClean(s[1..]);
      assert [s[0]] + s[1..] == s;
    }
  }

  /** Cleaning twice is cleaning once. */
  lemma CleanFilenameIdempotent(s: string)
    ensures CleanFilename(CleanFilename(s)) == CleanFilename(s)
  {
    CleanFilenameOfClean(CleanFilename(s));
  }

  /** Every allowed character occurs as often after cleaning as before, and
      no forbidden one is left. */
  lemma {:induction false} CleanFilenameCounts(s: string, c: char)
    ensures multiset(CleanFilename(s))[c] == if c in Forbidden then 0 else multiset(s)[c]
  {
    if s != [] {
      CleanFilenameCounts(s[1..], c);
      var head := if s[0] in Forbidden then [] else [s[0]];
      assert CleanFilename(s) == head + CleanFilename(s[1..]);
      assert multiset(CleanFilename(s)) == multiset(head) + multiset(CleanFilename(s[1..]));
      assert s == [s[0]] + s[1..];
      assert multiset(s) == multiset([s[0]]) + multiset(s[1..]);
    }
  }

  /** The k-th name tried by rename_files: first the cleaned name, then the
      RAW name with "_1", "_2", ... appended. */
  function CandidateName(newName: string, k: nat): (r: string)
    ensures k == 0 ==> IsClean(r)
    ensures k > 0 ==> |r| > |newName| && r[..|newName|] == newName
  {
    if k == 0 then CleanFilename(newName) else newName + "_" + DecimalString(k)
  }

  /** The path probed for candidate k: os.path.join(output_dir, name + "." + extension). */
  function CandidatePath(outputDir: string, newName: string, extension: string, k: nat): (p: string)
    ensures |p| > |CandidateName(newName, k)| + |extension|
  {
    Join(outputDir, CandidateName(newName, k) + "." + extension)
  }

  /** Every suffixed candidate keeps the forbidden characters of the raw
      name: only the first candidate is cleaned. */
  lemma RawNameSurvivesSuffix(newName: string, k: nat)
    requires k > 0 && !IsClean(newName)
    ensures !IsClean(CandidateName(newName, k))
  {
    var i :| 0 <= i < |newName| && newName[i] in Forbidden;
    assert CandidateName(newName, k)[i] == newName[i];
  }

  /** For example, "a:b" becomes "ab" on the first try but "a:b_1" on the second. */
  lemma SuffixedCandidateKeepsForbidden()
    ensures CandidatePath("output", "a:b", "mp4", 0) == "output/ab.mp4"
    ensures CandidatePath("output", "a:b", "mp4", 1) == "output/a:b_1.mp4"
    ensures !IsClean(CandidateName("a:b", 1))
  {
    assert CleanFilename("a:b") == "ab" by {
      assert "a:b"[1..] == ":b";
      assert ":b"[1..] == "b";
    }
    assert CandidateName("a:b", 0) + "." + "mp4" == "ab.mp4";
    assert Join("output", "ab.mp4") == "output/ab.mp4";
    assert DecimalString(1) == "1";
    assert CandidateName("a:b", 1) + "." + "mp4" == "a:b_1.mp4";
    assert Join("output", "a:b_1.mp4") == "output/a:b_1.mp4";
    assert CandidateName("a:b", 1)[1] == ':';
  }

  ghost function MaxLength(paths: set<string>): (m: nat)
    ensures forall p :: p in paths ==> |p| <= m
  {
    if paths == {} then 0
    else
      var p :| p in paths;
      var rest := MaxLength(paths - {p});
      if |p| > rest then |p| else rest
  }

  /** Once the suffix has more digits than the longest existing path has
      characters, the candidate cannot exist. */
  lemma LongCandidateIsFree(existing: set<string>, outputDir: string, newName: string, extension: string, k: nat)
    requires k >= Pow10(MaxLength(existing))
    ensures CandidatePath(outputDir, newName, extension, k) !in existing
  {
    var m := MaxLength(existing);
    DecimalStringLength(k, m);
    var name := CandidateName(newName, k) + "." + extension;
    assert |name| > m;
  }

  /** So a candidate that exists has a short suffix. */
  lemma ExistingCandidateIsShort(existing: set<string>, outputDir: string, newName: string, extension: string, k: nat)
    requires CandidatePath(outputDir, newName, extension, k) in existing
    ensures k < Pow10(MaxLength(existing))
  {
    if k >= Pow10(MaxLength(existing)) {
      LongCandidateIsFree(existing, outputDir, newName, extension, k);
      assert false;
    }
  }

  /** The probing loop of rename_files. The result is the first candidate,
      in the order of CandidateName, that is not an existing path; `tries`
      is the number of existing candidates probed before it. */
  method ChooseDestination(existing: set<string>, newName: string, extension: string, outputDir: string)
    returns (dest: string, ghost tries: nat)
    ensures dest == CandidatePath(outputDir, newName, extension, tries)
    ensures dest !in existing
    ensures forall j :: 0 <= j < tries ==> CandidatePath(outputDir, newName, extension, j) in existing
  {
    var counter := 1;
    var newFileName := CleanFilename(newName);
    ghost var bound := Pow10(MaxLength(existing));
    while Join(outputDir, newFileName + "." + extension) in existing
      invariant 1 <= counter <= bound + 1
      invariant newFileName == CandidateName(newName, counter - 1)
      invariant forall j :: 0 <= j < counter - 1 ==> CandidatePath(outputDir, newName, extension, j) in existing
      decreases bound + 1 - counter
    {
      assert CandidatePath(outputDir, newName, extension, counter - 1) in existing;
      ExistingCandidateIsShort(existing, outputDir, newName, extension, counter - 1);
      ghost var probed := counter - 1;
      forall j | 0 <= j <= probed
        ensures CandidatePath(outputDir, newName, extension, j) in existing
      {
        if j < probed {
          assert 0 <= j < counter - 1;
        }
      }
      newFileName := newName + "_" + DecimalString(counter);
      counter := counter + 1;
      assert newFileName == CandidateName(newName, counter - 1);
    }
    dest := Join(outputDir, newFileName + "." + extension);
    tries := counter - 1;
  }

  /** What os.rename does to the set of existing paths; renaming a path that
      does not exist raises FileNotFoundError, which rename_files does not
      catch. */
  datatype MoveResult = Moved(paths: set<string>) | NoSuchFile(path: string)

  function Move(paths: set<string>, from: string, to: string): (r: MoveResult)
    ensures r.Moved? <==> from in paths
    ensures r.Moved? ==> to in r.paths && (from != to ==> from !in r.paths)
    ensures r.Moved? ==> r.paths - {from, to} == paths - {from, to}
    ensures r.NoSuchFile? ==> r.path == from
  {
    if from in paths then Moved(paths - {from} + {to}) else NoSuchFile(from)
  }

  /** rename_files: choose a destination under `outputDir` that does not
      exist, then move `oldPath` there. */
  method RenameFiles(existing: set<string>, oldPath: string, newName: string, extension: string, outputDir: string)
    returns (dest: string, after: MoveResult)
    ensures dest !in existing
    ensures exists k: nat :: dest == CandidatePath(outputDir, newName, extension, k)
                          && forall j :: 0 <= j < k ==> CandidatePath(outputDir, newName, extension, j) in existing
    ensures after.Moved? <==> oldPath in existing
    ensures after.Moved? ==> dest in after.paths && oldPath !in after.paths
    ensures after.Moved? ==> after.paths - {dest} == existing - {oldPath}
    ensures after.NoSuchFile? ==> after.path == oldPath
  {
    ghost var tries;
    dest, tries := ChooseDestination(existing, newName, extension, outputDir);
    after := Move(existing, oldPath, dest);
  }
}
