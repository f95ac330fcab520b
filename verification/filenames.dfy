/** FileNameHelper: turning a video title into a safe file name, and finding a name
    for it that no existing file already uses.

    The filesystem is a finite set of path strings and `File.Exists(p)` is `p in files`.
    The set is a value parameter: the helper only reads it. */
module FileNames {
  import opened Chars
  import opened Decimal
  import opened Paths

  /** The characters the title pattern `[^a-zA-Z0-9\s]` does NOT match, so the ones kept. */
  predicate IsKept(c: char) {
    IsAsciiLetter(c) || IsAsciiDigit(c) || IsWhitespace(c)
  }

  predicate AllKept(s: string) {
    forall i :: 0 <= i < |s| ==> IsKept(s[i])
  }

  predicate AllWhitespace(s: string) {
    forall i :: 0 <= i < |s| ==> IsWhitespace(s[i])
  }

  /** `Regex.Replace(title, "[^a-zA-Z0-9\s]", "")`: every character outside the class is
      deleted, the others stay in order. */
  function RemoveDisallowed(s: string): (r: string)
    ensures |r| <= |s|
  {
    if s == [] then [] else KeptPart(s[0]) + RemoveDisallowed(s[1..])
  }

  /** What one character contributes to the filtered string. */
  function KeptPart(c: char): (r: string)
    ensures |r| <= 1
  {
    if IsKept(c) then [c] else []
  }

  /** Every character left after deleting is an allowed one. */
  lemma {:induction false} RemoveDisallowedAllKept(s: string)
    ensures AllKept(RemoveDisallowed(s))
  {
    if s != [] {
      RemoveDisallowedAllKept(s[1..]);
      var h, t := KeptPart(s[0]), RemoveDisallowed(s[1..]);
      assert forall i :: 0 <= i < |h + t| ==> (h + t)[i] == if i < |h| then h[i] else t[i - |h|];
    }
  }

  /** `String.TrimStart()`: drops the white space at the front and nothing else. */
  function TrimStart(s: string): (r: string)
    ensures |r| <= |s| && r == s[|s| - |r|..]
    ensures AllWhitespace(s[..|s| - |r|])
    ensures r != [] ==> !IsWhitespace(r[0])
  {
    if s != [] && IsWhitespace(s[0]) then
      var r := TrimStart(s[1..]);
      assert s[..|s| - |r|] == [s[0]] + s[1..][..|s| - 1 - |r|];
      r
    else s
  }

  /** `String.TrimEnd()`: drops the white space at the back and nothing else. */
  function TrimEnd(s: string): (r: string)
    ensures |r| <= |s| && r == s[..|r|]
    ensures AllWhitespace(s[|r|..])
    ensures r != [] ==> !IsWhitespace(r[|r| - 1])
  {
    if s != [] && IsWhitespace(s[|s| - 1]) then
      var r := TrimEnd(s[..|s| - 1]);
      assert s[|r|..] == s[..|s| - 1][|r|..] + [s[|s| - 1]];
      r
    else s
  }

  /** `r` is `s` with the white space `s[..i]` cut from the front and the white space
      after `r` cut from the back. */
  predicate TrimmedAt(s: string, r: string, i: nat) {
    i + |r| <= |s| && r == s[i..i + |r|] && AllWhitespace(s[..i]) && AllWhitespace(s[i + |r|..])
  }

  /** `String.Trim()`: the longest stretch of `s` between white-space ends. */
  function Trim(s: string): (r: string)
    ensures |r| <= |s|
    ensures r != [] ==> !IsWhitespace(r[0]) && !IsWhitespace(r[|r| - 1])
    ensures exists i: nat :: TrimmedAt(s, r, i)
  {
    var t := TrimStart(s);
    var r := TrimEnd(t);
    var i := |s| - |t|;
    assert t == s[i..];
    assert r == s[i..i + |r|];
    assert s[i + |r|..] == t[|r|..];
    assert TrimmedAt(s, r, i);
    r
  }

  /** `SanitizeYouTubeTitle` (FileNameHelper.cs:7-19). */
  function Sanitize(title: string): (r: string)
    ensures |r| <= |title|
    ensures AllKept(r)
    ensures r != [] ==> !IsWhitespace(r[0]) && !IsWhitespace(r[|r| - 1])
  {
    RemoveDisallowedAllKept(title);
    TrimKept(RemoveDisallowed(title));
    Trim(RemoveDisallowed(title))
  }

  /** Trimming only cuts characters off, so a string of allowed characters stays one. */
  lemma TrimKept(s: string)
    requires AllKept(s)
    ensures AllKept(Trim(s))
  {
    var r := Trim(s);
    var i: nat :| TrimmedAt(s, r, i);
    forall k | 0 <= k < |r| ensures IsKept(r[k]) {
      assert r[k] == s[i..i + |r|][k] == s[i + k];
    }
  }

  lemma AllKeptAppend(a: string, b: string)
    requires AllKept(a) && AllKept(b)
    ensures AllKept(a + b)
  {
    assert forall k :: 0 <= k < |a + b| ==> (a + b)[k] == if k < |a| then a[k] else b[k - |a|];
  }

  // ---------------------------------------------------------------------------
  // Properties of the sanitiser

  /** Deleting distributes over concatenation. */
  lemma {:induction false} RemoveDisallowedAppend(a: string, b: string)
    ensures RemoveDisallowed(a + b) == RemoveDisallowed(a) + RemoveDisallowed(b)
  {
    if a == [] {
      assert a + b == b;
    } else {
      var h := KeptPart(a[0]);
      calc {
        RemoveDisallowed(a + b);
        { assert (a + b)[0] == a[0] && (a + b)[1..] == a[1..] + b; }
        h + RemoveDisallowed(a[1..] + b);
        { RemoveDisallowedAppend(a[1..], b); }
        h + (RemoveDisallowed(a[1..]) + RemoveDisallowed(b));
        (h + RemoveDisallowed(a[1..])) + RemoveDisallowed(b);
      }
    }
  }

  /** Input made only of allowed characters passes through unchanged. */
  lemma {:induction false} RemoveDisallowedKeepsClean(s: string)
    requires AllKept(s)
    ensures RemoveDisallowed(s) == s
  {
    if s != [] {
      RemoveDisallowedKeepsClean(s[1..]);
    }
  }

  /** A disallowed character vanishes. */
  lemma RemoveDisallowedDrops(c: char)
    requires !IsKept(c)
    ensures RemoveDisallowed([c]) == []
  {
    assert [c][1..] == [];
  }

  /** Trimming a string whose ends are not white space changes nothing. */
  lemma TrimKeepsTrimmed(s: string)
    requires s != [] ==> !IsWhitespace(s[0]) && !IsWhitespace(s[|s| - 1])
    ensures Trim(s) == s
  {
  }

  /** Sanitising twice is sanitising once, so the second call inside
      `EnsureUniqueFileName` (FileNameHelper.cs:23) changes nothing for a title the
      caller already sanitised. */
  lemma SanitizeIdempotent(title: string)
    ensures Sanitize(Sanitize(title)) == Sanitize(title)
  {
    var s := Sanitize(title);
    RemoveDisallowedKeepsClean(s);
    TrimKeepsTrimmed(s);
  }

  /** A sanitised title is returned unchanged exactly when it was already clean. */
  lemma SanitizeFixedPoints(title: string)
    ensures Sanitize(title) == title <==>
      AllKept(title) && (title != [] ==> !IsWhitespace(title[0]) && !IsWhitespace(title[|title| - 1]))
  {
    if AllKept(title) && (title != [] ==> !IsWhitespace(title[0]) && !IsWhitespace(title[|title| - 1])) {
      RemoveDisallowedKeepsClean(title);
      TrimKeepsTrimmed(title);
    }
  }

  /** A sanitised name holds no '.' and no separator, so `Path` sees no extension in it. */
  lemma SanitizedIsPlain(title: string)
    ensures !Contains(Sanitize(title), '.') && !Contains(Sanitize(title), Separator)
  {
    var s := Sanitize(title);
    forall i | 0 <= i < |s| ensures s[i] != '.' && s[i] != Separator {
      KeptIsNotPunctuation(s[i]);
    }
  }

  lemma KeptIsNotPunctuation(c: char)
    requires IsKept(c)
    ensures c != '.' && c != Separator
  {
  }

  /** Deleting keeps every allowed character as often as it occurs and no other one. */
  lemma {:induction false} RemoveDisallowedCounts(s: string, c: char)
    ensures multiset(RemoveDisallowed(s))[c] == if IsKept(c) then multiset(s)[c] else 0
  {
    if s != [] {
      RemoveDisallowedCounts(s[1..], c);
      var h, t := KeptPart(s[0]), RemoveDisallowed(s[1..]);
      assert RemoveDisallowed(s) == h + t;
      assert multiset(h + t) == multiset(h) + multiset(t);
      assert multiset(s) == multiset([s[0]]) + multiset(s[1..]) by {
        assert s == [s[0]] + s[1..];
      }
      if IsKept(s[0]) {
        assert h == [s[0]];
      } else {
        assert h == [];
      }
    }
  }

  /** The sanitised title is the filtered title with its white-space ends cut off. */
  lemma SanitizeTrimsFiltered(title: string)
    ensures exists i: nat :: TrimmedAt(RemoveDisallowed(title), Sanitize(title), i)
  {
    assert Sanitize(title) == Trim(RemoveDisallowed(title));
  }

  lemma SanitizeEmpty()
    ensures Sanitize("") == ""
  {
  }

  /** One disallowed character after a clean stretch: the stretch stays, the character goes. */
  lemma RemoveDisallowedStep(clean: string, bad: char, rest: string)
    requires AllKept(clean) && !IsKept(bad)
    ensures RemoveDisallowed(clean + [bad] + rest) == clean + RemoveDisallowed(rest)
  {
    var tail := [bad] + rest;
    assert tail[0] == bad && tail[1..] == rest;
    assert RemoveDisallowed(tail) == RemoveDisallowed(rest);
    RemoveDisallowedAppend(clean, tail);
    RemoveDisallowedKeepsClean(clean);
    assert clean + [bad] + rest == clean + tail;
  }

  // The worked example below is cut into three clean stretches around the punctuation.
  // The nesting `a + (b + (c + []))` and the trailing `+ []` mirror, piece for piece,
  // how `RemoveDisallowedStep` takes the title apart, so that each literal equation
  // is checked on its own and matches the shape `SanitizeDropsPunctuation` states.

  lemma ExamplePiecesClean()
    ensures AllKept("Rick Astley ") && AllKept(" Never Gonna Give You Up ") && AllKept("Official Video")
  {
    AllKeptAppend("Rick ", "Astley ");
    assert "Rick " + "Astley " == "Rick Astley ";
    AllKeptAppend(" Never ", "Gonna ");
    AllKeptAppend("Give ", "You Up ");
    AllKeptAppend(" Never " + "Gonna ", "Give " + "You Up ");
    assert " Never " + "Gonna " + ("Give " + "You Up ") == " Never Gonna Give You Up ";
    AllKeptAppend("Official", " Video");
    assert "Official" + " Video" == "Official Video";
  }

  lemma ExampleSplit()
    ensures "Rick Astley - Never Gonna Give You Up (Official Video)"
         == "Rick Astley " + ['-'] + (" Never Gonna Give You Up " + ['('] + ("Official Video" + [')'] + []))
  {
  }

  lemma ExampleJoin()
    ensures "Rick Astley " + (" Never Gonna Give You Up " + ("Official Video" + []))
         == "Rick Astley  Never Gonna Give You Up Official Video"
  {
  }

  /** Three clean stretches separated by a hyphen and wrapped in parentheses: the
      shape of the worked example below, for any stretches. */
  lemma SanitizeDropsPunctuation(a: string, b: string, c: string)
    requires AllKept(a) && AllKept(b) && AllKept(c)
    requires a != [] && !IsWhitespace(a[0]) && c != [] && !IsWhitespace(c[|c| - 1])
    ensures Sanitize(a + ['-'] + (b + ['('] + (c + [')'] + []))) == a + (b + (c + []))
  {
    var r3 := c + [')'] + [];
    var r2 := b + ['('] + r3;
    assert RemoveDisallowed([]) == [];
    RemoveDisallowedStep(c, ')', []);
    RemoveDisallowedStep(b, '(', r3);
    RemoveDisallowedStep(a, '-', r2);
    var kept := a + (b + (c + []));
    assert kept[0] == a[0] && kept[|kept| - 1] == c[|c| - 1];
    TrimKeepsTrimmed(kept);
  }

  /** The worked example: punctuation goes, the double space left by the removed
      hyphen stays, and nothing is left at either end to trim. */
  lemma SanitizeExample()
    ensures Sanitize("Rick Astley - Never Gonna Give You Up (Official Video)")
         == "Rick Astley  Never Gonna Give You Up Official Video"
  {
    ExamplePiecesClean();
    ExampleSplit();
    ExampleJoin();
    SanitizeDropsPunctuation("Rick Astley ", " Never Gonna Give You Up ", "Official Video");
  }

  /** A file name passed in with an extension loses its dot: "Song.mp4" becomes
      "Songmp4", so the name probed for uniqueness never has an extension. */
  lemma SanitizeDropsDot()
    ensures Sanitize("Song.mp4") == "Songmp4"
  {
    RemoveDisallowedStep("Song", '.', "mp4");
    RemoveDisallowedKeepsClean("mp4");
    assert "Song" + ['.'] + "mp4" == "Song.mp4";
    assert "Song" + "mp4" == "Songmp4";
    TrimKeepsTrimmed("Songmp4");
  }

  // ---------------------------------------------------------------------------
  // Probing a finite set of files

  /** The paths `probe(0)`, ..., `probe(n - 1)`. */
  ghost function Probed(probe: nat -> string, n: nat): set<string> {
    if n == 0 then {} else Probed(probe, n - 1) + {probe(n - 1)}
  }

  ghost predicate Injective(probe: nat -> string) {
    forall i: nat, j: nat :: probe(i) == probe(j) ==> i == j
  }

  lemma {:induction false} ProbedMembers(probe: nat -> string, n: nat, p: string)
    ensures p in Probed(probe, n) <==> exists i :: 0 <= i < n && p == probe(i)
  {
    if n > 0 {
      ProbedMembers(probe, n - 1, p);
    }
  }

  /** n pairwise distinct probes cover n paths. */
  lemma {:induction false} ProbedSize(probe: nat -> string, n: nat)
    requires Injective(probe)
    ensures |Probed(probe, n)| == n
  {
    if n > 0 {
      ProbedSize(probe, n - 1);
      ProbedMembers(probe, n - 1, probe(n - 1));
    }
  }

  lemma {:induction false} SubsetSize(a: set<string>, b: set<string>)
    requires a <= b
    ensures |a| <= |b|
  {
    if a != {} {
      var x :| x in a;
      SubsetSize(a - {x}, b - {x});
    }
  }

  /** If the first n of pairwise distinct probes all hit, there are at least n files:
      a finite set cannot make the probing go on for ever. */
  lemma ProbesBoundedByFiles(probe: nat -> string, files: set<string>, n: nat)
    requires Injective(probe)
    requires forall i: nat :: i < n ==> probe(i) in files
    ensures n <= |files|
  {
    forall p | p in Probed(probe, n) ensures p in files {
      ProbedMembers(probe, n, p);
    }
    ProbedSize(probe, n);
    SubsetSize(Probed(probe, n), files);
  }

  /** The least step at or after n whose probe misses `files`. */
  ghost function FirstMissFrom(probe: nat -> string, files: set<string>, n: nat): (k: nat)
    requires Injective(probe)
    requires forall i: nat :: i < n ==> probe(i) in files
    ensures n <= k
    ensures probe(k) !in files
    ensures forall i: nat :: i < k ==> probe(i) in files
    decreases |files| - n
  {
    ProbesBoundedByFiles(probe, files, n);
    if probe(n) !in files then n else FirstMissFrom(probe, files, n + 1)
  }

  // ---------------------------------------------------------------------------
  // Unique names

  /** A name with neither '.' nor a directory separator, as every sanitised name is. */
  predicate IsPlain(name: string) {
    !Contains(name, '.') && !Contains(name, Separator)
  }

  /** The path probed at step `n` for the name `name` in `directory`: step 0 is the name
      itself, step n >= 1 is "{stem} copy{n}{extension}" (FileNameHelper.cs:24, 32-34). */
  function Candidate(directory: string, name: string, n: nat): string {
    if n == 0 then Combine(directory, name)
    else Combine(directory, FileNameWithoutExtension(name) + " copy" + NatToString(n) + Extension(name))
  }

  /** For a plain name the extension is empty and the stem is the whole name. */
  lemma CandidateOfPlain(directory: string, name: string, n: nat)
    requires IsPlain(name) && n >= 1
    ensures Candidate(directory, name, n) == Combine(directory, name + " copy" + NatToString(n))
  {
    PlainNameParts(name);
  }

  lemma CopyNotRooted(name: string, n: nat)
    requires IsPlain(name)
    ensures !IsRooted(name + " copy" + NatToString(n))
  {
    var copy := name + " copy" + NatToString(n);
    if name == [] {
      assert copy[0] == ' ';
    } else {
      assert copy[0] == name[0];
    }
  }

  /** No two probes of one plain name are the same path. */
  lemma CandidatesDistinct(directory: string, name: string, m: nat, n: nat)
    requires IsPlain(name) && m != n
    ensures Candidate(directory, name, m) != Candidate(directory, name, n)
  {
    assert !IsRooted(name);
    if m != 0 && n != 0 {
      CandidateOfPlain(directory, name, m);
      CandidateOfPlain(directory, name, n);
      var cm, cn := name + " copy" + NatToString(m), name + " copy" + NatToString(n);
      CopyNotRooted(name, m);
      CopyNotRooted(name, n);
      if Candidate(directory, name, m) == Candidate(directory, name, n) {
        CombineInjective(directory, cm, cn);
        assert NatToString(m) == cm[|name| + 5..] == NatToString(n);
        NatToStringInjective(m, n);
      }
    } else {
      var k := if m == 0 then n else m;
      CandidateOfPlain(directory, name, k);
      var copy := name + " copy" + NatToString(k);
      CopyNotRooted(name, k);
      if Candidate(directory, name, m) == Candidate(directory, name, n) {
        CombineInjective(directory, name, copy);
      }
    }
  }

  function Probe(directory: string, name: string): nat -> string {
    (n: nat) => Candidate(directory, name, n)
  }

  lemma ProbeInjective(directory: string, name: string)
    requires IsPlain(name)
    ensures Injective(Probe(directory, name))
  {
    forall i: nat, j: nat | Probe(directory, name)(i) == Probe(directory, name)(j) ensures i == j {
      if i != j {
        CandidatesDistinct(directory, name, i, j);
      }
    }
  }

  /** The copy number `EnsureUniqueFileName` settles on: the first probe that misses. */
  ghost function FreeStep(directory: string, title: string, files: set<string>): (k: nat)
    ensures Candidate(directory, Sanitize(title), k) !in files
    ensures forall i: nat :: i < k ==> Candidate(directory, Sanitize(title), i) in files
  {
    var name := Sanitize(title);
    SanitizedIsPlain(title);
    ProbeInjective(directory, name);
    var probe := Probe(directory, name);
    assert forall i: nat :: probe(i) == Candidate(directory, name, i);
    FirstMissFrom(probe, files, 0)
  }

  /** `EnsureUniqueFileName` (FileNameHelper.cs:21-39), probing `files` for
      `File.Exists`. */
  method EnsureUniqueFileName(directory: string, fileName: string, files: set<string>) returns (path: string)
    ensures path !in files
    ensures path == Candidate(directory, Sanitize(fileName), FreeStep(directory, fileName, files))
    ensures Combine(directory, Sanitize(fileName)) !in files ==> path == Combine(directory, Sanitize(fileName))
  {
    var sanitizedFileName := Sanitize(fileName);
    var filePath := Combine(directory, sanitizedFileName);
    var copyIndex: nat := 1;
    var newFilePath := filePath;
    SanitizedIsPlain(fileName);
    ProbeInjective(directory, sanitizedFileName);
    ghost var probe := Probe(directory, sanitizedFileName);
    assert forall i: nat :: probe(i) == Candidate(directory, sanitizedFileName, i);
    while newFilePath in files
      invariant copyIndex >= 1
      invariant newFilePath == Candidate(directory, sanitizedFileName, copyIndex - 1)
      invariant forall i: nat :: i < copyIndex - 1 ==> Candidate(directory, sanitizedFileName, i) in files
      decreases |files| - copyIndex
    {
      ProbesBoundedByFiles(probe, files, copyIndex);
      ghost var hits := copyIndex;
      assert forall i: nat :: i < hits ==> Candidate(directory, sanitizedFileName, i) in files by {
        forall i: nat | i < hits ensures Candidate(directory, sanitizedFileName, i) in files {
          if i == hits - 1 {
            assert Candidate(directory, sanitizedFileName, i) == newFilePath;
          }
        }
      }
      var fileNameWithoutExtension := FileNameWithoutExtension(sanitizedFileName);
      var extension := Extension(sanitizedFileName);
      newFilePath := Combine(directory, fileNameWithoutExtension + " copy" + NatToString(copyIndex) + extension);
      assert newFilePath == Candidate(directory, sanitizedFileName, copyIndex);
      copyIndex := copyIndex + 1;
      assert copyIndex - 1 == hits;
    }
    path := newFilePath;
    FreeStepIsLeast(directory, fileName, files, copyIndex - 1);
  }

  /** The first missing probe is unique: any step that misses after only hits is it. */
  lemma FreeStepIsLeast(directory: string, title: string, files: set<string>, n: nat)
    requires Candidate(directory, Sanitize(title), n) !in files
    requires forall i: nat :: i < n ==> Candidate(directory, Sanitize(title), i) in files
    ensures FreeStep(directory, title, files) == n
  {
  }

  // ---------------------------------------------------------------------------
  // Properties of the unique name

  /** A free sanitised path is returned as it is. */
  lemma FreeStepWhenFree(directory: string, title: string, files: set<string>)
    requires Combine(directory, Sanitize(title)) !in files
    ensures FreeStep(directory, title, files) == 0
  {
    assert Candidate(directory, Sanitize(title), 0) == Combine(directory, Sanitize(title));
  }

  /** A taken sanitised path gets the suffix " copyN" with the least N >= 1 whose path
      is free; the plain path and every smaller copy exist already. */
  lemma FreeStepWhenTaken(directory: string, title: string, files: set<string>)
    requires Combine(directory, Sanitize(title)) in files
    ensures var n := FreeStep(directory, title, files);
      && n >= 1
      && Candidate(directory, Sanitize(title), n) == Combine(directory, Sanitize(title) + " copy" + NatToString(n))
      && Combine(directory, Sanitize(title) + " copy" + NatToString(n)) !in files
      && forall i :: 1 <= i < n ==> Combine(directory, Sanitize(title) + " copy" + NatToString(i)) in files
  {
    var name := Sanitize(title);
    SanitizedIsPlain(title);
    assert Candidate(directory, name, 0) == Combine(directory, name);
    CopiesOfTaken(directory, name, files, FreeStep(directory, title, files));
  }

  /** The copies probed before a first miss at step n >= 1 all exist, and the n-th does not. */
  lemma CopiesOfTaken(directory: string, name: string, files: set<string>, n: nat)
    requires IsPlain(name) && n >= 1
    requires Candidate(directory, name, n) !in files
    requires forall i: nat :: i < n ==> Candidate(directory, name, i) in files
    ensures Candidate(directory, name, n) == Combine(directory, name + " copy" + NatToString(n))
    ensures Combine(directory, name + " copy" + NatToString(n)) !in files
    ensures forall i :: 1 <= i < n ==> Combine(directory, name + " copy" + NatToString(i)) in files
  {
    CandidateOfPlain(directory, name, n);
    forall i | 1 <= i < n ensures Combine(directory, name + " copy" + NatToString(i)) in files {
      CandidateOfPlain(directory, name, i);
    }
  }
}
