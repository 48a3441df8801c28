/** Paths and C strings: `strrchr`, `strncpy` and `getRelativeParentName` of
    src/DateiSteuerBlock.c, and what they mean for a path made of components. */
module Paths {
  import opened Types

  // ---- Splitting at the last slash ----

  /** Index of the last slash, or -1: what `strrchr(s, '/')` points at. */
  function LastSlash(s: string): (r: int)
    ensures -1 <= r < |s|
    ensures r >= 0 ==> s[r] == '/'
    ensures forall j :: r < j < |s| ==> s[j] != '/'
  {
    if s == "" then -1
    else if s[|s| - 1] == '/' then |s| - 1
    else LastSlash(s[..|s| - 1])
  }

  /** `relativeName`: the text after the last slash, or the whole path without one. */
  function BaseName(path: string): string {
    path[LastSlash(path) + 1..]
  }

  /** The text before the last slash. */
  function ParentPath(path: string): string
    requires LastSlash(path) >= 0
  {
    path[..LastSlash(path)]
  }

  /** The result of `getRelativeParentName`; None stands for NULL. */
  function RelativeParentName(path: string): Option<string> {
    if LastSlash(path) < 0 then None
    else if LastSlash(ParentPath(path)) < 0 then Some("/")
    else Some(BaseName(ParentPath(path)))
  }

  /** A file name as the kernel hands it over. */
  predicate Component(c: string) {
    c != "" && |c| < NAME_SIZE && IsCString(c) && '/' !in c
  }

  /** "/" followed by components joined by "/". */
  predicate WellFormed(path: string)
    decreases |path|
  {
    LastSlash(path) >= 0 && Component(BaseName(path)) &&
    (ParentPath(path) == "" || WellFormed(ParentPath(path)))
  }

  /** The pair lookup goes by: a file's name and its parent's name. */
  type Key = (string, string)

  function KeyOf(path: string): Key
    requires WellFormed(path)
  {
    (BaseName(path), RelativeParentName(path).value)
  }

  function Join(components: seq<string>): string {
    if components == [] then ""
    else Join(components[..|components| - 1]) + "/" + components[|components| - 1]
  }

  predicate AllComponents(components: seq<string>) {
    forall i :: 0 <= i < |components| ==> Component(components[i])
  }

  /** Appending a component is undone by splitting at the last slash. */
  lemma SplitAppend(prefix: string, c: string)
    requires '/' !in c
    ensures var path := prefix + "/" + c;
            LastSlash(path) == |prefix| && BaseName(path) == c && ParentPath(path) == prefix
  {
    var path := prefix + "/" + c;
    assert path[|prefix|] == '/';
    assert forall j :: |prefix| < j < |path| ==> path[j] == c[j - |prefix| - 1];
    assert LastSlash(path) == |prefix|;
  }

  /** `create_inode` loses nothing by splitting a path into parent path and name. */
  lemma SplitRebuilds(path: string)
    requires LastSlash(path) >= 0
    ensures path == ParentPath(path) + "/" + BaseName(path)
    ensures '/' !in BaseName(path)
  {}

  /** Splitting of any text, well formed or not: by its last two slashes, if it has them. */
  lemma SplittingAnyPath(front: string, middle: string, name: string)
    requires '/' !in middle && '/' !in name
    ensures BaseName(name) == name && RelativeParentName(name) == None
    ensures var path := middle + "/" + name;
            LastSlash(path) >= 0 && BaseName(path) == name && ParentPath(path) == middle
            && RelativeParentName(path) == Some("/")
    ensures var path := front + "/" + middle + "/" + name;
            LastSlash(path) >= 0 && BaseName(path) == name && ParentPath(path) == front + "/" + middle
            && RelativeParentName(path) == Some(middle)
  {
    NoSlash(name);
    NoSlash(middle);
    SplitAppend(middle, name);
    SplitAppend(front + "/" + middle, name);
    SplitAppend(front, middle);
    hide LastSlash, BaseName, ParentPath;
  }

  lemma NoSlash(s: string)
    requires '/' !in s
    ensures LastSlash(s) == -1 && BaseName(s) == s
  {}

  /** Path splitting by components: the name is the last component, the parent path is
      all but the last, and the parent name is "/" for one component and the last but one
      otherwise. */
  lemma {:induction false} PathSplitting(cs: seq<string>)
    requires cs != [] && AllComponents(cs)
    ensures WellFormed(Join(cs))
    ensures BaseName(Join(cs)) == cs[|cs| - 1]
    ensures ParentPath(Join(cs)) == Join(cs[..|cs| - 1])
    ensures RelativeParentName(Join(cs)) == Some(if |cs| == 1 then "/" else cs[|cs| - 2])
  {
    var init := cs[..|cs| - 1];
    SplitAppend(Join(init), cs[|cs| - 1]);
    if |cs| > 1 {
      PathSplitting(init);
    }
  }

  function Components(path: string): (cs: seq<string>)
    requires path == "" || WellFormed(path)
    ensures AllComponents(cs)
    ensures path != "" ==> cs != []
    decreases |path|
  {
    if path == "" then [] else Components(ParentPath(path)) + [BaseName(path)]
  }

  lemma {:induction false} JoinComponents(path: string)
    requires path == "" || WellFormed(path)
    ensures Join(Components(path)) == path
    decreases |path|
  {
    if path != "" {
      var cs := Components(path);
      assert cs[..|cs| - 1] == Components(ParentPath(path));
      JoinComponents(ParentPath(path));
    }
  }

  /** The recursive reading of "well formed" is the grammar: one or more components, each
      after a slash. */
  lemma WellFormedIffJoined(path: string)
    ensures WellFormed(path) <==> exists cs :: cs != [] && AllComponents(cs) && Join(cs) == path
  {
    if WellFormed(path) {
      JoinComponents(path);
    }
    forall cs: seq<string> | cs != [] && AllComponents(cs) && Join(cs) == path
      ensures WellFormed(path)
    {
      PathSplitting(cs);
    }
  }

  /** What the file system needs to know of a well-formed path. */
  lemma WellFormedParts(path: string)
    requires WellFormed(path)
    ensures path != "/" && IsCString(path)
    ensures RelativeParentName(path).Some?
    ensures RelativeParentName(path) == Some("/") <==> ParentPath(path) == ""
    ensures ParentPath(path) != "" ==>
              WellFormed(ParentPath(path)) && ParentPath(path) != "/" &&
              RelativeParentName(path) == Some(BaseName(ParentPath(path)))
    decreases |path|
  {
    SplitRebuilds(path);
    if ParentPath(path) != "" {
      WellFormedParts(ParentPath(path));
    }
  }

  /** The parent path is what remains in front of the name and its slash. */
  lemma ParentPathText(path: string)
    ensures RelativeParentName(path) == None <==> LastSlash(path) < 0
    ensures LastSlash(path) >= 0 ==>
              0 <= |path| - |BaseName(path)| - 1 && path[..|path| - |BaseName(path)| - 1] == ParentPath(path) &&
              (IsCString(path) ==> IsCString(ParentPath(path)))
  {}

  // ---- C buffers ----

  /** The string a buffer holds: everything before the first NUL. The requires is C's: an
      unterminated buffer must not be read as a string. */
  function CStr(buf: seq<char>): (s: string)
    requires '\0' in buf
    ensures |s| < |buf| && buf[|s|] == '\0' && s == buf[..|s|]
    ensures forall i :: 0 <= i < |s| ==> s[i] != '\0'
  {
    if buf[0] == '\0' then "" else [buf[0]] + CStr(buf[1..])
  }

  method Strrchr(s: string, c: char) returns (at: int)
    ensures -1 <= at < |s|
    ensures at >= 0 ==> s[at] == c
    ensures forall j :: at < j < |s| ==> s[j] != c
  {
    at := |s| - 1;
    while at >= 0 && s[at] != c
      invariant -1 <= at < |s|
      invariant forall j :: at < j < |s| ==> s[j] != c
    {
      at := at - 1;
    }
  }

  /** Copies at most n characters and pads with NUL up to n; adds no terminator of its own. */
  method Strncpy(dst: array<char>, src: string, n: nat)
    requires n <= dst.Length
    modifies dst
    ensures forall k :: 0 <= k < n ==> dst[k] == if k < |src| then src[k] else '\0'
    ensures forall k :: n <= k < dst.Length ==> dst[k] == old(dst[k])
  {
    for i := 0 to n
      invariant forall k :: 0 <= k < i ==> dst[k] == if k < |src| then src[k] else '\0'
      invariant forall k :: i <= k < dst.Length ==> dst[k] == old(dst[k])
    {
      dst[i] := if i < |src| then src[i] else '\0';
    }
  }

  /** `pLastSlash ? pLastSlash + 1 : path`. */
  method RelativeName(path: string) returns (name: string)
    ensures name == BaseName(path)
  {
    var lastSlash := Strrchr(path, '/');
    assert LastSlash(path) == lastSlash;
    name := path[lastSlash + 1..];
  }

  /** The two-byte copy of "/" that both root cases return. */
  method RootName() returns (r: string)
    ensures r == "/"
  {
    var root := new char[2];
    Strncpy(root, "/", 2);
    assert root[0] == '/' && root[1] == '\0';
    r := CStr(root[..]);
    assert r == root[..1];
  }

  /** The first n characters through a zeroed buffer of the string's own length: there is
      room for the terminator because n is smaller. */
  method CopyPrefix(s: string, n: nat) returns (r: string)
    requires IsCString(s) && n < |s|
    ensures r == s[..n]
  {
    var buf := new char[|s|](_ => '\0');
    Strncpy(buf, s, n);
    assert buf[n] == '\0';
    r := CStr(buf[..]);
    assert forall k :: 0 <= k < n ==> buf[..][k] == s[k];
  }

  /** `strcpy` of everything from an index on, into a buffer with one character to spare. */
  method CopyFrom(s: string, at: nat) returns (r: string)
    requires IsCString(s) && at <= |s|
    ensures r == s[at..]
  {
    var tail := s[at..];
    var buf := new char[|tail| + 2](_ => '\0');
    Strncpy(buf, tail, |tail| + 1);
    assert buf[|tail|] == '\0';
    r := CStr(buf[..]);
    assert forall k :: 0 <= k < |tail| ==> buf[..][k] == tail[k];
  }

  /** `getRelativeParentName`. The buffers have exactly the sizes the original allocates, so
      the verifier's bounds checks show that every copy fits, and `CStr` that every buffer
      is terminated when it is read. */
  method GetRelativeParentName(filePath: string) returns (r: Option<string>)
    requires IsCString(filePath)
    ensures r == RelativeParentName(filePath)
  {
    var fromLastSlash := Strrchr(filePath, '/');
    if fromLastSlash < 0 {
      return None;
    }
    assert LastSlash(filePath) == fromLastSlash;
    if fromLastSlash == 0 {
      assert ParentPath(filePath) == "";
      var root := RootName();
      return Some(root);
    }
    var absoluteParentName := CopyPrefix(filePath, fromLastSlash);
    var fromLastSlashInAP := Strrchr(absoluteParentName, '/');
    assert LastSlash(absoluteParentName) == fromLastSlashInAP;
    if fromLastSlashInAP >= 0 {
      var relativeParentName := CopyFrom(absoluteParentName, fromLastSlashInAP + 1);
      r := Some(relativeParentName);
    } else {
      var root := RootName();
      r := Some(root);
    }
  }
}
