/** The three `System.IO.Path` operations the unique-name loop calls, with the Unix
    behaviour of .NET: '/' is the only directory separator and a path is rooted when
    it starts with one. */
module Paths {
  import opened Options

  const Separator: char := '/'

  predicate IsSeparator(c: char) {
    c == Separator
  }

  predicate IsRooted(path: string) {
    |path| > 0 && IsSeparator(path[0])
  }

  /** `Path.Combine(first, second)`: an empty part yields the other, a rooted second
      part replaces the first, and otherwise one separator is put between them unless
      the first already ends with one. */
  function Combine(first: string, second: string): (r: string)
    ensures first == [] ==> r == second
    ensures second == [] ==> r == first
    ensures first != [] && second != [] && !IsRooted(second) ==>
      |r| > |first| && |r| > |second| && r[..|first|] == first && r[|r| - |second|..] == second
  {
    if first == [] then second
    else if second == [] then first
    else if IsRooted(second) then second
    else if IsSeparator(first[|first| - 1]) then first + second
    else first + [Separator] + second
  }

  /** Within one directory, `Combine` tells apart the names that are not rooted. */
  lemma CombineInjective(dir: string, a: string, b: string)
    requires !IsRooted(a) && !IsRooted(b)
    requires Combine(dir, a) == Combine(dir, b)
    ensures a == b
  {
    if dir != [] && a != [] && b != [] {
      var ra, rb := Combine(dir, a), Combine(dir, b);
      var k := if IsSeparator(dir[|dir| - 1]) then |dir| else |dir| + 1;
      assert ra[k..] == a;
      assert rb[k..] == b;
    }
  }

  /** `Path.GetExtension`: scanning back from the end, the text from the last '.' that
      is not the final character and not before a separator; "" if there is none. */
  function Extension(path: string): (ext: string)
    ensures ext == [] || (2 <= |ext| <= |path| && ext[0] == '.' && ext == path[|path| - |ext|..])
  {
    ExtensionBefore(path, |path|)
  }

  function ExtensionBefore(path: string, i: nat): (ext: string)
    requires i <= |path|
    ensures ext == [] || (2 <= |ext| <= |path| && ext[0] == '.' && ext == path[|path| - |ext|..])
    decreases i
  {
    if i == 0 then []
    else if path[i - 1] == '.' then (if i == |path| then [] else path[i - 1..])
    else if IsSeparator(path[i - 1]) then []
    else ExtensionBefore(path, i - 1)
  }

  /** No separator comes after position `k`: `k` lies in the last component of `path`. */
  predicate InLastComponent(path: string, k: nat) {
    forall j :: k < j < |path| ==> !IsSeparator(path[j])
  }

  /** The extension starts at the last '.' of the last component, and it is empty
      exactly when that component has no '.' or ends in one. */
  lemma ExtensionSpec(path: string)
    ensures var ext := Extension(path);
      ext != [] ==>
        InLastComponent(path, |path| - |ext|) && forall k :: |path| - |ext| < k < |path| ==> path[k] != '.'
    ensures var ext := Extension(path);
      ext == [] ==>
        (|path| > 0 && path[|path| - 1] == '.') || forall k :: 0 <= k < |path| && InLastComponent(path, k) ==> path[k] != '.'
  {
    ExtensionBeforeSpec(path, |path|);
  }

  lemma {:induction false} ExtensionBeforeSpec(path: string, i: nat)
    requires i <= |path|
    requires forall k :: i <= k < |path| ==> path[k] != '.' && !IsSeparator(path[k])
    ensures var ext := ExtensionBefore(path, i);
      ext != [] ==>
        InLastComponent(path, |path| - |ext|) && forall k :: |path| - |ext| < k < |path| ==> path[k] != '.'
    ensures var ext := ExtensionBefore(path, i);
      ext == [] ==>
        (|path| > 0 && path[|path| - 1] == '.') || forall k :: 0 <= k < |path| && InLastComponent(path, k) ==> path[k] != '.'
    decreases i
  {
    if i > 0 && path[i - 1] != '.' && !IsSeparator(path[i - 1]) {
      ExtensionBeforeSpec(path, i - 1);
    }
  }

  /** `Path.GetFileName`: the part after the last separator. */
  function FileName(path: string): (name: string)
    ensures |name| <= |path| && name == path[|path| - |name|..]
    ensures forall i :: 0 <= i < |name| ==> !IsSeparator(name[i])
  {
    FileNameBefore(path, |path|)
  }

  function FileNameBefore(path: string, i: nat): (name: string)
    requires i <= |path|
    requires forall k :: i <= k < |path| ==> !IsSeparator(path[k])
    ensures |name| <= |path| && name == path[|path| - |name|..]
    ensures forall k :: 0 <= k < |name| ==> !IsSeparator(name[k])
    decreases i
  {
    if i == 0 then path
    else if IsSeparator(path[i - 1]) then path[i..]
    else FileNameBefore(path, i - 1)
  }

  /** The file name is all of the path after its last separator: what precedes it is
      a separator, or nothing. */
  lemma FileNameSpec(path: string)
    ensures var name := FileName(path);
      |name| < |path| ==> IsSeparator(path[|path| - |name| - 1])
  {
    FileNameBeforeSpec(path, |path|);
  }

  lemma {:induction false} FileNameBeforeSpec(path: string, i: nat)
    requires i <= |path|
    requires forall k :: i <= k < |path| ==> !IsSeparator(path[k])
    ensures var name := FileNameBefore(path, i);
      |name| < |path| ==> IsSeparator(path[|path| - |name| - 1])
    decreases i
  {
    if i > 0 && !IsSeparator(path[i - 1]) {
      FileNameBeforeSpec(path, i - 1);
    }
  }

  /** `Path.GetFileNameWithoutExtension`: the file name up to its last '.'. */
  function FileNameWithoutExtension(path: string): string {
    var name := FileName(path);
    match LastIndexOf(name, '.')
    case Some(i) => name[..i]
    case None => name
  }

  /** The stem is the file name cut just before its last '.', or all of it when it has none. */
  lemma StemSpec(path: string)
    ensures var name, stem := FileName(path), FileNameWithoutExtension(path);
      |stem| <= |name| && stem == name[..|stem|]
      && (|stem| < |name| ==> name[|stem|] == '.' && forall k :: |stem| < k < |name| ==> name[k] != '.')
      && (|stem| == |name| ==> forall k :: 0 <= k < |name| ==> name[k] != '.')
  {
  }

  function LastIndexOf(s: string, c: char): (r: Option<nat>)
    ensures r.Some? ==>
      r.value < |s| && s[r.value] == c && forall k :: r.value < k < |s| ==> s[k] != c
    ensures r.None? ==> forall k :: 0 <= k < |s| ==> s[k] != c
  {
    if s == [] then None
    else if s[|s| - 1] == c then Some(|s| - 1)
    else LastIndexOf(s[..|s| - 1], c)
  }

  predicate Contains(s: string, c: char) {
    exists i :: 0 <= i < |s| && s[i] == c
  }

  /** A name with neither '.' nor a separator has no extension and is its own stem. */
  lemma {:induction false} PlainNameParts(name: string)
    requires !Contains(name, '.') && !Contains(name, Separator)
    ensures Extension(name) == []
    ensures FileNameWithoutExtension(name) == name
  {
    PlainNameHasNoExtension(name, |name|);
    PlainNameIsFileName(name, |name|);
  }

  lemma {:induction false} PlainNameHasNoExtension(name: string, i: nat)
    requires i <= |name|
    requires !Contains(name, '.')
    ensures ExtensionBefore(name, i) == []
    decreases i
  {
    if i > 0 {
      assert name[i - 1] != '.';
      PlainNameHasNoExtension(name, i - 1);
    }
  }

  lemma {:induction false} PlainNameIsFileName(name: string, i: nat)
    requires i <= |name|
    requires !Contains(name, Separator)
    ensures FileNameBefore(name, i) == name
    decreases i
  {
    if i > 0 {
      assert !IsSeparator(name[i - 1]);
      PlainNameIsFileName(name, i - 1);
    }
  }
}
