/**
 * Output names of the bilingual download: the sanitised stem, the language folder, the
 * `.mxliff` file name, and the collision-avoiding rename against the files already in a folder.
 *
 * Python's Unicode character classes `str.isalnum` and `str.isspace` are not interpreted: they
 * are the two fields of `CharClasses`. Paths follow `posixpath` (`/` is the only separator).
 */
module Naming {
  import opened Base
  import opened Text

  datatype CharClasses = CharClasses(alnum: char -> bool, space: char -> bool)

  /** A character the sanitiser keeps: alphanumeric, space, hyphen or underscore. */
  predicate Allowed(cc: CharClasses, c: char) {
    cc.alnum(c) || c == ' ' || c == '-' || c == '_'
  }

  /** The allowed characters of `s`, in order; a string of allowed characters is kept whole. */
  function KeepAllowed(cc: CharClasses, s: string): (r: string)
    ensures |r| <= |s|
    ensures forall i :: 0 <= i < |r| ==> Allowed(cc, r[i])
    ensures (forall i :: 0 <= i < |s| ==> Allowed(cc, s[i])) ==> r == s
    decreases |s|
  {
    if |s| == 0 then []
    else (if Allowed(cc, s[0]) then [s[0]] else []) + KeepAllowed(cc, s[1..])
  }

  /**
   * Filtering works character by character: it distributes over concatenation. With the
   * one-character cases of `KeepAllowed` this says it keeps exactly the allowed characters,
   * in their original order.
   */
  lemma {:induction false} KeepAllowedAppend(cc: CharClasses, a: string, b: string)
    ensures KeepAllowed(cc, a + b) == KeepAllowed(cc, a) + KeepAllowed(cc, b)
    decreases |a|
  {
    if |a| == 0 {
      assert a + b == b;
    } else {
      assert (a + b)[1..] == a[1..] + b;
      KeepAllowedAppend(cc, a[1..], b);
    }
  }

  lemma KeepAllowedSingle(cc: CharClasses, c: char)
    ensures KeepAllowed(cc, [c]) == (if Allowed(cc, c) then [c] else [])
  {
  }

  /** The sanitiser of lines 386 and 420-421: keep the allowed characters, then `rstrip()`. */
  function Sanitize(cc: CharClasses, s: string): (r: string)
    ensures r <= KeepAllowed(cc, s)
    ensures forall i :: |r| <= i < |KeepAllowed(cc, s)| ==> cc.space(KeepAllowed(cc, s)[i])
    ensures |r| == 0 || !cc.space(r[|r| - 1])
    ensures forall i :: 0 <= i < |r| ==> Allowed(cc, r[i])
  {
    TrimRight(KeepAllowed(cc, s), cc.space)
  }

  /** A sanitised name is left alone by a second sanitising. */
  lemma SanitizeIdempotent(cc: CharClasses, s: string)
    ensures Sanitize(cc, Sanitize(cc, s)) == Sanitize(cc, s)
  {
    var r := Sanitize(cc, s);
    assert KeepAllowed(cc, r) == r;
  }

  /** The fixed name of the per-job path when sanitising leaves nothing. */
  const Placeholder := "unnamed"

  /** The extension of every downloaded bilingual file. */
  const Extension := ".mxliff"

  /** The target language with every '/' replaced by '_', so it can name a folder. */
  function SafeLang(lang: string): (r: string)
    ensures |r| == |lang| && '/' !in r
    ensures forall i :: 0 <= i < |lang| ==> r[i] == (if lang[i] == '/' then '_' else lang[i])
  {
    ReplaceChar(lang, '/', '_')
  }

  /**
   * The language folder of lines 378-381 and 410-413: the safe language, followed by an
   * underscore and the workflow abbreviation when there is one. It is a single path component
   * when the abbreviation holds no '/'.
   */
  function FolderName(lang: string, abbr: string): (folder: string)
    ensures |lang| <= |folder| && folder[..|lang|] == SafeLang(lang)
    ensures |folder| == |lang| <==> abbr == ""
    ensures '/' !in abbr ==> '/' !in folder
  {
    if abbr != "" then SafeLang(lang) + "_" + abbr else SafeLang(lang)
  }

  /** Within one language, different workflow abbreviations get different folders. */
  lemma FolderNamesDiffer(lang: string, a: string, b: string)
    ensures FolderName(lang, a) == FolderName(lang, b) ==> a == b
  {
    if FolderName(lang, a) == FolderName(lang, b) && a != "" && b != "" {
      assert a == FolderName(lang, a)[|lang| + 1..];
      assert b == FolderName(lang, b)[|lang| + 1..];
    }
  }

  /**
   * The file name of lines 387-390 and 425-428, before the collision check: it starts with the
   * stem and an underscore and ends in ".mxliff", and holds no '/' when neither the stem nor
   * the abbreviation does.
   */
  function FileName(stem: string, lang: string, abbr: string): (name: string)
    ensures |stem| + 1 + |Extension| <= |name|
    ensures name[..|stem|] == stem && name[|stem|] == '_'
    ensures name[|name| - |Extension|..] == Extension
    ensures '/' !in stem && '/' !in abbr ==> '/' !in name
  {
    if abbr != "" then stem + "_" + SafeLang(lang) + "_" + abbr + Extension
    else stem + "_" + SafeLang(lang) + Extension
  }

  /**
   * Merged mode (line 386): the stem is the project name's allowed characters up to the
   * trailing whitespace, every dropped character being whitespace, already sanitised; it is empty, with no placeholder, when the name's
   * allowed characters are all whitespace.
   */
  function MergedStem(cc: CharClasses, projectName: string): (stem: string)
    ensures stem <= KeepAllowed(cc, projectName)
    ensures forall i :: 0 <= i < |stem| ==> Allowed(cc, stem[i])
    ensures |stem| == 0 || !cc.space(stem[|stem| - 1])
    ensures forall i :: |stem| <= i < |KeepAllowed(cc, projectName)| ==> cc.space(KeepAllowed(cc, projectName)[i])
    ensures Sanitize(cc, stem) == stem
    ensures stem == "" <==> forall i :: 0 <= i < |KeepAllowed(cc, projectName)| ==> cc.space(KeepAllowed(cc, projectName)[i])
  {
    SanitizeIdempotent(cc, projectName);
    Sanitize(cc, projectName)
  }

  /**
   * Per-job mode (lines 420-423): the stem is never empty. It is "unnamed" exactly when the
   * sanitised root of the job's file name (without its extension; "unknown" when the job has
   * none) is empty or is itself "unnamed"; otherwise it is the root's allowed characters with
   * the trailing whitespace, and only that, dropped.
   */
  function PerJobStem(cc: CharClasses, jobFilename: Option<string>): (stem: string)
    ensures stem != ""
    ensures var root := SplitExt(jobFilename.GetOr("unknown")).0;
            stem == Placeholder <==> Sanitize(cc, root) == "" || Sanitize(cc, root) == Placeholder
    ensures var root := SplitExt(jobFilename.GetOr("unknown")).0;
            stem != Placeholder ==>
              && stem <= KeepAllowed(cc, root)
              && (forall i :: 0 <= i < |stem| ==> Allowed(cc, stem[i]))
              && (forall i :: |stem| <= i < |KeepAllowed(cc, root)| ==> cc.space(KeepAllowed(cc, root)[i]))
              && !cc.space(stem[|stem| - 1])
              && Sanitize(cc, stem) == stem
  {
    SanitizeIdempotent(cc, SplitExt(jobFilename.GetOr("unknown")).0);
    var safe := Sanitize(cc, SplitExt(jobFilename.GetOr("unknown")).0);
    if safe == "" then Placeholder else safe
  }

  /**
   * In both modes the file name is the stem, an underscore, the folder name and the extension:
   * the file's language-and-workflow part always matches the folder it is written to.
   */
  lemma FileNameExtendsFolder(stem: string, lang: string, abbr: string)
    ensures FileName(stem, lang, abbr) == stem + "_" + FolderName(lang, abbr) + Extension
  {
  }

  /** `os.path.join(a, b)` on POSIX: an absolute `b` replaces `a`; otherwise one `/` between them. */
  function PathJoin(a: string, b: string): (p: string)
    ensures |b| > 0 && b[0] == '/' ==> p == b
    ensures !(|b| > 0 && b[0] == '/') ==> (a == "" || a[|a| - 1] == '/' ==> p == a + b)
    ensures !(|b| > 0 && b[0] == '/') && a != "" && a[|a| - 1] != '/' ==> p == a + "/" + b
  {
    if |b| > 0 && b[0] == '/' then b
    else if a == "" || a[|a| - 1] == '/' then a + b
    else a + "/" + b
  }

  /** The last index of `c` in `s`, or -1 (Python's `s.rfind(c)`). */
  function LastIndex(s: string, c: char): (i: int)
    ensures -1 <= i < |s|
    ensures i >= 0 ==> s[i] == c
    ensures forall j :: i < j < |s| ==> s[j] != c
    decreases |s|
  {
    if |s| == 0 then -1 else if s[|s| - 1] == c then |s| - 1 else LastIndex(s[..|s| - 1], c)
  }

  predicate AllDots(s: string) {
    forall i :: 0 <= i < |s| ==> s[i] == '.'
  }

  /** What `splitext` can return as an extension: nothing, or one dot and then no dot or '/'. */
  predicate IsExtension(e: string) {
    |e| == 0 || (e[0] == '.' && forall i :: 1 <= i < |e| ==> e[i] != '.' && e[i] != '/')
  }

  /**
   * `posixpath.splitext`: the extension starts at the last dot of the last path component,
   * unless everything before that dot in the component is dots (a hidden file such as ".cfg").
   */
  function SplitExt(p: string): (parts: (string, string))
    ensures parts.0 + parts.1 == p
    ensures IsExtension(parts.1)
  {
    var sep := LastIndex(p, '/');
    var dot := LastIndex(p, '.');
    if dot > sep && !AllDots(p[sep + 1..dot]) then
      TailIsExtension(p, sep, dot);
      (p[..dot], p[dot..])
    else
      (p, "")
  }

  /** What follows the last dot, when no separator follows it either, is an extension. */
  lemma TailIsExtension(p: string, sep: int, dot: int)
    requires -1 <= sep < dot < |p| && p[dot] == '.'
    requires forall j :: dot < j < |p| ==> p[j] != '.'
    requires forall j :: sep < j < |p| ==> p[j] != '/'
    ensures p[..dot] + p[dot..] == p
    ensures IsExtension(p[dot..])
  {
    var ext := p[dot..];
    assert forall i :: 1 <= i < |ext| ==> ext[i] == p[dot + i];
  }

  lemma {:induction false} LastIndexAppendFree(a: string, b: string, c: char)
    requires c !in b
    ensures LastIndex(a + b, c) == LastIndex(a, c)
    decreases |b|
  {
    if |b| == 0 {
      assert a + b == a;
    } else {
      assert (a + b)[..|a + b| - 1] == a + b[..|b| - 1];
      LastIndexAppendFree(a, b[..|b| - 1], c);
    }
  }

  lemma ExtensionHasNoSeparator(ext: string)
    requires |ext| >= 1 && IsExtension(ext)
    ensures '/' !in ext && '.' !in ext[1..]
  {
    assert forall i :: 0 <= i < |ext[1..]| ==> ext[1..][i] == ext[i + 1];
  }

  lemma LastDotBeforeTail(root: string, tail: string)
    requires '.' !in tail
    ensures LastIndex(root + ['.'] + tail, '.') == |root|
  {
    LastIndexAppendFree(root + ['.'], tail, '.');
  }

  lemma SeparatorPositions(root: string, ext: string, p: string)
    requires |ext| >= 1 && IsExtension(ext) && p == root + ext
    ensures LastIndex(p, '.') == |root|
    ensures LastIndex(p, '/') == LastIndex(root, '/')
  {
    ExtensionHasNoSeparator(ext);
    LastIndexAppendFree(root, ext, '/');
    assert p == root + ['.'] + ext[1..];
    LastDotBeforeTail(root, ext[1..]);
  }

  lemma SplitExtAt(root: string, ext: string, p: string)
    requires p == root + ext
    requires LastIndex(p, '.') == |root| && LastIndex(p, '/') == LastIndex(root, '/')
    requires !AllDots(root[LastIndex(root, '/') + 1..])
    ensures SplitExt(p) == (root, ext)
  {
    var sep := LastIndex(root, '/');
    assert p[sep + 1..|root|] == root[sep + 1..];
    assert p[..|root|] == root;
    assert p[|root|..] == ext;
  }

  /**
   * `splitext` gives back the root and extension it was built from, when the extension is one
   * dot followed by neither dots nor separators and the root's last component is not all dots.
   */
  lemma SplitExtOfJoin(root: string, ext: string)
    requires |ext| >= 1 && IsExtension(ext)
    requires !AllDots(root[LastIndex(root, '/') + 1..])
    ensures SplitExt(root + ext) == (root, ext)
  {
    var p := root + ext;
    SeparatorPositions(root, ext, p);
    SplitExtAt(root, ext, p);
  }

  /**
   * The rename step splits every generated name back into `<stem>_<folder>` and ".mxliff", so
   * the " (k)" counter always lands just before ".mxliff". The workflow abbreviation is assumed
   * free of '/', as the sanitised stem and the safe language are.
   */
  lemma GeneratedNamesSplitAtExtension(stem: string, lang: string, abbr: string)
    requires '/' !in stem && '/' !in abbr
    ensures '/' !in FileName(stem, lang, abbr)
    ensures SplitExt(FileName(stem, lang, abbr)) == (stem + "_" + FolderName(lang, abbr), Extension)
  {
    var root := stem + "_" + FolderName(lang, abbr);
    assert '/' !in root;
    assert LastIndex(root, '/') == -1;
    assert root[|stem|] == '_';
    assert root[LastIndex(root, '/') + 1..] == root;
    assert IsExtension(Extension);
    SplitExtOfJoin(root, Extension);
    FileNameExtendsFolder(stem, lang, abbr);
    assert FileName(stem, lang, abbr) == root + Extension;
  }

  lemma {:induction false} SubsetCardinality<T>(a: set<T>, b: set<T>)
    requires a <= b
    ensures |a| <= |b|
    decreases |a|
  {
    if a != {} {
      var x :| x in a;
      SubsetCardinality(a - {x}, b - {x});
    }
  }

  /** The k-th renamed candidate: the base, then the counter in parentheses after a space, then the extension. */
  function Candidate(base: string, k: nat, ext: string): string {
    base + " (" + NatToString(k) + ")" + ext
  }

  /** Distinct counters give distinct candidates. */
  lemma CandidateInjective(base: string, ext: string, i: nat, j: nat)
    ensures Candidate(base, i, ext) == Candidate(base, j, ext) ==> i == j
  {
    var a := Candidate(base, i, ext);
    var b := Candidate(base, j, ext);
    if a == b {
      var di := NatToString(i);
      var dj := NatToString(j);
      assert |di| == |dj|;
      assert a[|base| + 2..|base| + 2 + |di|] == di;
      assert b[|base| + 2..|base| + 2 + |dj|] == dj;
      NatToStringInjective(i, j);
    }
  }

  /** The name tried at attempt `j`: the original first, then the numbered candidates. */
  function Attempt(filename: string, j: nat): string {
    var parts := SplitExt(filename);
    if j == 0 then filename else Candidate(parts.0, j, parts.1)
  }

  lemma AttemptInjective(filename: string, i: nat, j: nat)
    ensures Attempt(filename, i) == Attempt(filename, j) ==> i == j
  {
    var parts := SplitExt(filename);
    if i != 0 && j != 0 {
      CandidateInjective(parts.0, parts.1, i, j);
    } else if i != j {
      var k := if i == 0 then j else i;
      assert |Candidate(parts.0, k, parts.1)| > |filename|;
    }
  }

  /** The names of the first `n` attempts. */
  function AttemptSet(filename: string, n: nat): set<string> {
    set j: nat | j < n :: Attempt(filename, j)
  }

  /** A map that is one-to-one on `0..n` has `n` values there. */
  lemma {:induction false} InjectiveImageSize<T>(f: nat -> T, n: nat)
    requires forall i, j :: 0 <= i < n && 0 <= j < n && f(i) == f(j) ==> i == j
    ensures |set j: nat | j < n :: f(j)| == n
  {
    if n == 0 {
      assert (set j: nat | j < n :: f(j)) == {};
    } else {
      InjectiveImageSize(f, n - 1);
      var below := set j: nat | j < n - 1 :: f(j);
      assert (set j: nat | j < n :: f(j)) == below + {f(n - 1)};
      assert f(n - 1) !in below;
    }
  }

  /** The first `n` attempts are `n` different names. */
  lemma AttemptSetSize(filename: string, n: nat)
    ensures |AttemptSet(filename, n)| == n
  {
    forall i, j | 0 <= i < n && 0 <= j < n && Attempt(filename, i) == Attempt(filename, j)
      ensures i == j
    {
      AttemptInjective(filename, i, j);
    }
    var f := (j: nat) => Attempt(filename, j);
    InjectiveImageSize(f, n);
    var image := set j: nat | j < n :: f(j);
    forall x | x in AttemptSet(filename, n) ensures x in image {
      var j: nat :| j < n && Attempt(filename, j) == x;
      assert f(j) == x;
    }
    assert AttemptSet(filename, n) == image;
  }

  /**
   * The first attempt from `j` on whose name is not in `dir`. There is one: `dir` cannot hold
   * more than `|dir|` of the distinct attempted names.
   */
  function FirstFree(dir: set<string>, filename: string, j: nat): (k: nat)
    requires forall i :: 0 <= i < j ==> Attempt(filename, i) in dir
    ensures j <= k && Attempt(filename, k) !in dir
    ensures forall i :: 0 <= i < k ==> Attempt(filename, i) in dir
    decreases |dir| - j
  {
    if Attempt(filename, j) !in dir then j
    else
      AttemptSetSize(filename, j + 1);
      assert AttemptSet(filename, j + 1) <= dir;
      SubsetCardinality(AttemptSet(filename, j + 1), dir);
      FirstFree(dir, filename, j + 1)
  }

  /** The name `get_unique_filename` settles on: the first attempt not already in the folder. */
  function UniqueName(dir: set<string>, filename: string): (name: string)
    ensures name !in dir
    ensures filename !in dir ==> name == filename
    ensures exists k: nat :: name == Attempt(filename, k) && forall i :: 0 <= i < k ==> Attempt(filename, i) in dir
  {
    var k := FirstFree(dir, filename, 0);
    assert Attempt(filename, 0) == filename;
    Attempt(filename, k)
  }

  /** Only one counter can be the first free one. */
  lemma FirstFreeIsUnique(dir: set<string>, filename: string, k1: nat, k2: nat)
    requires Attempt(filename, k1) !in dir && forall i :: 0 <= i < k1 ==> Attempt(filename, i) in dir
    requires Attempt(filename, k2) !in dir && forall i :: 0 <= i < k2 ==> Attempt(filename, i) in dir
    ensures k1 == k2
  {
  }

  /**
   * `get_unique_filename`, with the folder's current contents as the set `dir`. Returns the
   * name and the counter `k` it carries (0 when the original name was free). The loop ends
   * because every attempted name is a distinct member of `dir`.
   */
  method UniqueFilename(dir: set<string>, filename: string) returns (name: string, k: nat)
    ensures name !in dir
    ensures filename !in dir ==> name == filename && k == 0
    ensures filename in dir ==>
              1 <= k <= |dir| && name == Candidate(SplitExt(filename).0, k, SplitExt(filename).1)
    ensures forall j :: 1 <= j < k ==> Candidate(SplitExt(filename).0, j, SplitExt(filename).1) in dir
    ensures name == UniqueName(dir, filename)
  {
    var parts := SplitExt(filename);
    var base, extension := parts.0, parts.1;
    var counter := 1;
    name := filename;
    ghost var tried: set<string> := {};
    while name in dir
      invariant counter >= 1
      invariant name == Attempt(filename, counter - 1)
      invariant forall j :: 0 <= j < counter - 1 ==> Attempt(filename, j) in dir
      invariant tried <= dir && |tried| == counter - 1
      invariant forall j: nat :: j >= counter - 1 ==> Attempt(filename, j) !in tried
      decreases |dir| - |tried|
    {
      forall j: nat | j >= counter
        ensures Attempt(filename, j) != name
      {
        AttemptInjective(filename, j, counter - 1);
      }
      tried := tried + {name};
      SubsetCardinality(tried, dir);
      name := Candidate(base, counter, extension);
      counter := counter + 1;
    }
    k := counter - 1;
    SubsetCardinality(tried, dir);
    assert forall j :: 1 <= j < k ==> Attempt(filename, j) == Candidate(base, j, extension);
    var least := FirstFree(dir, filename, 0);
    FirstFreeIsUnique(dir, filename, k, least);
  }
}
