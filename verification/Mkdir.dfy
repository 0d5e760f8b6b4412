/**
 Recursive creation of directories (src/file.c): the path buffer is cut in place to the parent's name
 by writing NULs over separators, the parent is created by a recursive call on the same buffer, and
 the separators are written back. Paths use '/' as separator.
 */
module Mkdir {

  import opened Basics

  const SEP := '/'

  // ---------------------------------------------------------------- names and places

  /** The components of a path: maximal runs of characters other than the separator. */
  function Split(s: string): seq<string> {
    if s == [] then []
    else
      var n := |s| - 1;
      var front := Split(s[..n]);
      if s[n] == SEP then front
      else if n > 0 && s[n - 1] != SEP && front != [] then front[..|front| - 1] + [front[|front| - 1] + [s[n]]]
      else front + [[s[n]]]
  }

  datatype Place = Place(absolute: bool, components: seq<string>)

  const ROOT := Place(true, [])
  const HERE := Place(false, [])

  function Resolve(p: string): Place {
    if p == "." then HERE else Place(p != [] && p[0] == SEP, Split(p))
  }

  function Upto(l: Place, k: nat): Place
    requires k <= |l.components|
  {
    l.(components := l.components[..k])
  }

  function Parent(l: Place): Place
    requires l.components != []
  {
    Upto(l, |l.components| - 1)
  }

  /** No component is "." or "..", except in the path "." itself. */
  predicate Plain(p: string) {
    p == "." || ("." !in Split(p) && ".." !in Split(p))
  }

  ghost predicate AllSep(s: string) {
    forall i :: 0 <= i < |s| ==> s[i] == SEP
  }

  ghost predicate NoSep(s: string) {
    SEP !in s
  }

  lemma {:induction false} SplitSeps(q: string, seps: string)
    requires AllSep(seps)
    ensures Split(q + seps) == Split(q)
    decreases |seps|
  {
    if seps == [] {
      assert q + seps == q;
    } else {
      var n := |seps| - 1;
      assert (q + seps)[..|q + seps| - 1] == q + seps[..n];
      SplitSeps(q, seps[..n]);
    }
  }

  lemma SplitLast(s: string)
    requires s != [] && s[|s| - 1] != SEP
    ensures var n := |s| - 1;
            var front := Split(s[..n]);
            Split(s) == if n > 0 && s[n - 1] != SEP && front != []
                        then front[..|front| - 1] + [front[|front| - 1] + [s[n]]] else front + [[s[n]]]
  {
  }

  lemma SplitNothing()
    ensures Split([]) == []
  {
  }

  lemma OneLetterMore(front: seq<string>, name: string, c: char)
    ensures var all := front + [name];
            all[..|all| - 1] + [all[|all| - 1] + [c]] == front + [name + [c]]
  {
  }

  lemma SplitGrows(q: string, name: string, c: char)
    requires name != [] && name[|name| - 1] != SEP && c != SEP && Split(q + name) == Split(q) + [name]
    ensures Split(q + name + [c]) == Split(q) + [name + [c]]
  {
    hide Split;
    var s := q + name + [c];
    assert s[..|s| - 1] == q + name && s[|s| - 1] == c && s[|s| - 2] == name[|name| - 1];
    SplitLast(s);
    OneLetterMore(Split(q), name, c);
  }

  /** A name after a separator, or at the start, is one more component. */
  lemma {:induction false} SplitBase(q: string, base: string)
    requires base != [] && NoSep(base) && (q == [] || q[|q| - 1] == SEP)
    ensures Split(q + base) == Split(q) + [base]
    decreases |base|
  {
    hide Split;
    var s, n := q + base, |base| - 1;
    var shorter := base[..n];
    assert base == shorter + [base[n]] && base[n] in base;
    assert s[..|s| - 1] == q + shorter && s[|s| - 1] == base[n];
    if n == 0 {
      assert q + shorter == q;
      SplitLast(s);
    } else {
      assert base[n - 1] in base;
      SplitBase(q, shorter);
      assert shorter[n - 1] == base[n - 1];
      SplitGrows(q, shorter, base[n]);
      assert q + shorter + [base[n]] == s;
    }
  }

  /** The shape of a path that has a parent inside the buffer. */
  ghost predicate CutAt(p: string, cut: nat, name: nat, end: nat) {
    && 0 < cut < name < end <= |p|
    && AllSep(p[cut..name]) && NoSep(p[name..end]) && AllSep(p[end..])
  }

  lemma SplitCut(p: string, cut: nat, name: nat, end: nat)
    requires CutAt(p, cut, name, end)
    ensures Split(p) == Split(p[..cut]) + [p[name..end]]
  {
    assert p == p[..end] + p[end..];
    SplitSeps(p[..end], p[end..]);
    assert p[..end] == p[..name] + p[name..end];
    assert p[..name][|p[..name]| - 1] == p[cut..name][name - cut - 1];
    SplitBase(p[..name], p[name..end]);
    assert p[..name] == p[..cut] + p[cut..name];
    SplitSeps(p[..cut], p[cut..name]);
  }

  /** The text before the cut names the parent. */
  lemma CutIsParent(p: string, cut: nat, name: nat, end: nat)
    requires CutAt(p, cut, name, end) && Plain(p)
    ensures Plain(p[..cut]) && p[..cut] != "."
    ensures Resolve(p).components != [] && Resolve(p[..cut]) == Parent(Resolve(p))
  {
    SplitCut(p, cut, name, end);
    assert p != ".";
    assert Split(".") == ["."] by { SplitBase([], "."); assert [] + "." == "."; }
    assert "." in Split(".");
    assert Split(p)[..|Split(p)| - 1] == Split(p[..cut]);
    forall c | c in Split(p[..cut]) ensures c in Split(p) {
    }
  }

  // ---------------------------------------------------------------- the file system

  /** Some proper ancestor of the place is a file that is no directory. */
  predicate UnderFile(files: set<Place>, l: Place) {
    exists k :: 0 <= k < |l.components| && Upto(l, k) in files
  }

  datatype Outcome = Created | Exists | Missing | Refused

  /**
   Directories form a prefix-closed set; other files stand in directories and are no directories; creating
   a place may be refused for good. For a path with "." or
   ".." among its components nothing is known of the answer, nor of what it does to the directories.
   */
  class FileSystem {
    var dirs: set<Place>
    const files: set<Place>
    const refused: set<Place>

    ghost predicate Valid()
      reads this
    {
      && ROOT in dirs && HERE in dirs && (forall l :: l in dirs && l.components != [] ==> Parent(l) in dirs)
      && files !! dirs && (forall l :: l in files ==> l.components != [] && Parent(l) in dirs)
    }

    /** The places that cannot become directories. */
    ghost function Blocked(): set<Place> {
      refused + files
    }

    constructor (dirs: set<Place>, files: set<Place>, refused: set<Place>)
      requires ROOT in dirs && HERE in dirs && (forall l :: l in dirs && l.components != [] ==> Parent(l) in dirs)
      requires files !! dirs && (forall l :: l in files ==> l.components != [] && Parent(l) in dirs)
      ensures Valid() && this.dirs == dirs && this.files == files && this.refused == refused
    {
      this.dirs, this.files, this.refused := dirs, files, refused;
    }

    method MakeDir(path: string) returns (r: Outcome)
      requires Valid()
      modifies this
      ensures Valid()
      ensures Plain(path) ==>
                r == if path == [] then Missing
                     else if Resolve(path) in old(dirs) || Resolve(path) in files then Exists
                     else if UnderFile(files, Resolve(path)) then Refused
                     else if Resolve(path).components != [] && Parent(Resolve(path)) !in old(dirs) then Missing
                     else if Resolve(path) in refused then Refused
                     else Created
      ensures Plain(path) ==> dirs == old(dirs) + if r == Created then {Resolve(path)} else {}
    {
      var l := Resolve(path);
      if !Plain(path) {
        r := *;
        return;
      }
      if path == [] {
        return Missing;
      }
      if l in dirs || l in files {
        return Exists;
      }
      if UnderFile(files, l) {
        return Refused;
      }
      if l.components != [] && Parent(l) !in dirs {
        return Missing;
      }
      if l in refused {
        return Refused;
      }
      dirs := dirs + {l};
      return Created;
    }
  }

  lemma {:induction false} AncestorsExist(fs: FileSystem, l: Place, k: nat)
    requires fs.Valid() && l in fs.dirs && k <= |l.components|
    ensures Upto(l, k) in fs.dirs
    decreases |l.components| - k
  {
    if k == |l.components| {
      assert l.components[..k] == l.components;
      assert Upto(l, k) == l;
    } else {
      AncestorsExist(fs, l, k + 1);
      assert Upto(l, k + 1).components[..k] == l.components[..k];
    }
  }

  // ---------------------------------------------------------------- the buffer

  /** The buffer holds the NUL-terminated string of length `n`. */
  ghost predicate HoldsString(path: seq<char>, n: nat) {
    n < |path| && path[n] == NUL && NUL !in path[..n]
  }

  method StrLen(path: array<char>, ghost n: nat) returns (len: nat)
    requires HoldsString(path[..], n)
    ensures len == n
  {
    len := 0;
    while path[len] != NUL
      invariant len <= n < path.Length
      decreases n - len
    {
      len := len + 1;
    }
  }

  /** The buffer after cutting: NULs in the place of the separators before the last name. */
  function CutBuffer(path: seq<char>, cut: nat, name: nat): seq<char>
    requires cut <= name <= |path|
  {
    path[..cut] + seq(name - cut, _ => NUL) + path[name..]
  }

  /** Skips the separators at the end; the first character is not examined. */
  method SkipTail(path: array<char>, n: nat) returns (c: int)
    requires n < path.Length
    ensures -1 <= c < n && (n > 0 ==> c >= 0)
    ensures c > 0 ==> path[c] != SEP
    ensures forall i :: c < i < n ==> path[i] == SEP
  {
    c := n - 1;
    while c > 0 && path[c] == SEP
      invariant -1 <= c < n && (n > 0 ==> c >= 0)
      invariant forall i :: c < i < n ==> path[i] == SEP
    {
      c := c - 1;
    }
  }

  /** Goes back from the last character of the name to the separator in front of it, or to the first character. */
  method SkipName(path: array<char>, last: int) returns (c: int)
    requires -1 <= last < path.Length
    ensures c < last && (c > 0 ==> path[c] == SEP)
    ensures forall i :: 0 <= i && c < i < last ==> path[i] != SEP
  {
    c := last - 1;
    while c > 0 && path[c] != SEP
      invariant c < last
      invariant forall i :: 0 <= i && c < i < last ==> path[i] != SEP
      decreases c
    {
      c := c - 1;
    }
  }

  /** Finds, from the end, the separator in front of the last name; the first character is not examined. */
  method ScanName(path: array<char>, n: nat) returns (c: int, ghost end: nat)
    requires HoldsString(path[..], n)
    ensures c <= 0 ==> |Split(path[..n])| <= 1
    ensures c > 0 ==> c + 1 < end <= n && path[c] == SEP && NoSep(path[c + 1..end]) && AllSep(path[end..n])
  {
    hide Split;
    var last := SkipTail(path, n);
    end := last + 1;
    c := SkipName(path, last);
    if c <= 0 {
      ShortPath(path[..n], end);
    }
  }

  /** Writes NULs over the run of separators that ends at `c`, but never over the first character. */
  method CutSeparators(path: array<char>, c0: nat, n: nat) returns (cut: nat)
    requires HoldsString(path[..], n) && 0 < c0 < n && path[c0] == SEP
    modifies path
    ensures 0 < cut <= c0 && AllSep(old(path[cut..c0 + 1]))
    ensures path[..] == CutBuffer(old(path[..]), cut, c0 + 1)
  {
    ghost var before := path[..];
    var c := c0;
    while c > 0 && path[c] == SEP
      invariant 0 <= c <= c0 && (c == c0 ==> path[..] == before)
      invariant AllSep(before[c + 1..c0 + 1])
      invariant path[..] == CutBuffer(before, c + 1, c0 + 1)
    {
      path[c] := NUL;
      c := c - 1;
    }
    cut := c + 1;
  }

  lemma CutString(path: seq<char>, n: nat, cut: nat, name: nat)
    requires HoldsString(path, n) && cut < name <= n
    ensures HoldsString(CutBuffer(path, cut, name), cut)
  {
    var b := CutBuffer(path, cut, name);
    assert b[..cut] == path[..n][..cut];
    assert b[cut] == NUL;
  }

  /**
   The parent's name: either the buffer is cut in front of its last name, or the answer is "." and the
   buffer is untouched. The answer "." is given only to a path with at most one component.
   */
  method InternalDirname(path: array<char>, n: nat) returns (dot: bool, ghost cut: nat, ghost name: nat, ghost end: nat)
    requires HoldsString(path[..], n)
    modifies path
    ensures dot ==> path[..] == old(path[..]) && |Split(path[..n])| <= 1
    ensures !dot ==> n > 0 && CutAt(old(path[..n]), cut, name, end)
                     && path[..] == CutBuffer(old(path[..]), cut, name) && HoldsString(path[..], cut)
  {
    hide CutBuffer;
    ghost var p := path[..n];
    var c;
    c, end := ScanName(path, n);
    if c <= 0 {
      dot, cut, name := true, 0, 0;
      return;
    }
    name := c + 1;
    assert p[name..end] == path[name..end] && p[end..] == path[end..n];
    ghost var before := path[..];
    var k := CutSeparators(path, c, n);
    cut := k;
    assert p[cut..name] == before[cut..name];
    CutString(before, n, cut, name);
    dot := false;
  }

  lemma ShortPath(p: string, end: nat)
    requires end <= |p| && AllSep(p[end..])
    requires forall i :: 0 < i < end - 1 ==> p[i] != SEP
    requires p != [] ==> end > 0
    requires end > 1 ==> p[end - 1] != SEP
    ensures |Split(p)| <= 1
  {
    hide Split;
    SplitNothing();
    assert p == p[..end] + p[end..];
    SplitSeps(p[..end], p[end..]);
    var q := p[..end];
    if end == 0 {
    } else if q[0] != SEP && end > 0 {
      assert [] + q == q;
      SplitBase([], q);
    } else if end == 1 {
      assert [] + q == q;
      SplitSeps([], q);
    } else {
      assert [SEP] + q[1..] == q;
      SplitBase([SEP], q[1..]);
      assert [] + [SEP] == [SEP];
      SplitSeps([], [SEP]);
    }
  }

  lemma NextIsSep(path: seq<char>, before: seq<char>, len0: nat, len: nat, name: nat, lenOrig: nat)
    requires len0 <= len <= name <= lenOrig < |before| && len < lenOrig && HoldsString(before, lenOrig)
    requires path == CutBuffer(before, len, name) && path[len] == NUL && AllSep(before[len0..name])
    ensures len < name && before[len] == SEP
  {
    var c := before[..lenOrig][len];
    assert c in before[..lenOrig];
    assert before[len0..len] == before[len0..name][..len - len0];
    assert forall i :: len0 <= i < name ==> before[i] == before[len0..name][i - len0];
  }

  /** Writes the separators back until the next character of the name, or the old end, is met. */
  method RestoreSeparators(path: array<char>, len0: nat, lenOrig: nat, ghost before: seq<char>, ghost name: nat)
    requires len0 <= name <= lenOrig < path.Length == |before| && HoldsString(before, lenOrig)
    requires path[..] == CutBuffer(before, len0, name) && AllSep(before[len0..name])
    modifies path
    ensures path[..] == before
  {
    var len := len0;
    while len < lenOrig && path[len] == NUL
      invariant len0 <= len <= name
      invariant path[..] == CutBuffer(before, len, name)
      decreases lenOrig - len
    {
      NextIsSep(path[..], before, len0, len, name, lenOrig);
      path[len] := SEP;
      len := len + 1;
    }
    assert CutBuffer(before, name, name) == before;
  }

  /** "." and ".." are not created. */
  method IsWildcardDirectory(name: string) returns (r: bool)
    ensures r <==> name == "." || name == ".."
  {
    var len := 0;
    while len <= 2 && len < |name|
      invariant len <= 3 && len <= |name| && forall i :: 0 <= i < len ==> name[i] == '.'
    {
      if name[len] != '.' {
        return false;
      }
      len := len + 1;
    }
    return len == 1 || len == 2;
  }

  /** Nothing that is missing on the way to the place, or the place itself, is refused. */
  ghost predicate MayCreate(dirs: set<Place>, refused: set<Place>, l: Place) {
    forall k :: 0 <= k <= |l.components| ==> Upto(l, k) in dirs || Upto(l, k) !in refused
  }

  ghost predicate OnTheWay(a: Place, l: Place) {
    exists k :: 0 <= k <= |l.components| && a == Upto(l, k)
  }

  lemma UptoParent(l: Place, k: nat)
    requires l.components != [] && k <= |l.components| - 1
    ensures Upto(Parent(l), k) == Upto(l, k)
  {
    assert Parent(l).components[..k] == l.components[..k];
  }

  lemma UptoSelf(l: Place)
    ensures Upto(l, |l.components|) == l && OnTheWay(l, l)
  {
    assert l.components[..|l.components|] == l.components;
  }

  lemma MayCreateParent(dirs: set<Place>, refused: set<Place>, l: Place)
    requires l.components != []
    ensures MayCreate(dirs, refused, l) <==> MayCreate(dirs, refused, Parent(l)) && (l in dirs || l !in refused)
  {
    UptoSelf(l);
    forall k | 0 <= k < |l.components| ensures Upto(Parent(l), k) == Upto(l, k) {
      UptoParent(l, k);
    }
  }

  lemma ParentOnTheWay(a: Place, l: Place)
    requires l.components != [] && OnTheWay(a, Parent(l))
    ensures OnTheWay(a, l) && a != l
  {
    var k :| 0 <= k <= |Parent(l).components| && a == Upto(Parent(l), k);
    UptoParent(l, k);
  }

  /** The places created by a call that was asked for `l`. */
  ghost predicate Grown(before: set<Place>, after: set<Place>, l: Place) {
    before <= after && forall a :: a in after ==> a in before || OnTheWay(a, l)
  }

  lemma AllExist(fs: FileSystem, l: Place)
    requires fs.Valid() && l in fs.dirs
    ensures MayCreate(fs.dirs, fs.Blocked(), l)
  {
    forall k | 0 <= k <= |l.components| ensures Upto(l, k) in fs.dirs {
      AncestorsExist(fs, l, k);
    }
  }

  /** A refusal is for good: the place is refused, or lies under a file. */
  lemma RefusedForGood(fs: FileSystem, l: Place)
    requires fs.Valid() && l !in fs.dirs && (UnderFile(fs.files, l) || l in fs.refused)
    ensures !MayCreate(fs.dirs, fs.Blocked(), l)
  {
    if k :| 0 <= k < |l.components| && Upto(l, k) in fs.files {
      assert Upto(l, k) in fs.Blocked();
    } else {
      UptoSelf(l);
    }
  }

  lemma ParentIsNoFile(fs: FileSystem, l: Place)
    requires l.components != [] && !UnderFile(fs.files, l)
    ensures Parent(l) !in fs.files
  {
  }

  /** The parent of a single component is the root or the current directory. */
  lemma ShortParent(fs: FileSystem, l: Place)
    requires fs.Valid() && |l.components| == 1
    ensures Parent(l) in fs.dirs
  {
    assert Parent(l) == ROOT || Parent(l) == HERE;
  }

  lemma HereIsFine(fs: FileSystem)
    requires fs.Valid()
    ensures MayCreate(fs.dirs, fs.Blocked(), HERE)
    ensures forall after :: Grown(fs.dirs, after, HERE) ==> after == fs.dirs
  {
    AllExist(fs, HERE);
    forall after | Grown(fs.dirs, after, HERE) ensures after == fs.dirs {
      forall a | a in after ensures a in fs.dirs {
        if OnTheWay(a, HERE) {
          var k :| 0 <= k <= 0 && a == Upto(HERE, k);
        }
      }
    }
  }

  /** Once the parent is there, creating the last component succeeds unless it is refused. */
  lemma ParentDone(before: set<Place>, fs: FileSystem, l: Place)
    requires fs.Valid() && l.components != [] && l !in before && l !in fs.files
    requires Grown(before, fs.dirs, Parent(l)) && Parent(l) in fs.dirs && MayCreate(before, fs.Blocked(), Parent(l))
    ensures l !in fs.dirs
    ensures MayCreate(before, fs.Blocked(), l) <==> l !in fs.refused
    ensures Grown(before, fs.dirs, l) && Grown(before, fs.dirs + {l}, l)
  {
    MayCreateParent(before, fs.Blocked(), l);
    UptoSelf(l);
    forall a | OnTheWay(a, Parent(l)) ensures OnTheWay(a, l) && a != l {
      ParentOnTheWay(a, l);
    }
  }

  /** If the parent could not be created, neither can the place, and what was created is on its way. */
  lemma ParentFailed(before: set<Place>, fs: FileSystem, l: Place)
    requires l.components != [] && Grown(before, fs.dirs, Parent(l)) && !MayCreate(before, fs.Blocked(), Parent(l))
    ensures !MayCreate(before, fs.Blocked(), l) && Grown(before, fs.dirs, l)
  {
    MayCreateParent(before, fs.Blocked(), l);
    forall a | OnTheWay(a, Parent(l)) ensures OnTheWay(a, l) {
      ParentOnTheWay(a, l);
    }
  }

  /** What a call for the path `p` means: success exactly if possible, and nothing off the way is created. */
  ghost predicate MkdirMeaning(before: set<Place>, fs: FileSystem, p: string, rv: int)
    reads fs
  {
    && (rv == 0 <==> p != [] && (Resolve(p) in fs.files || MayCreate(before, fs.Blocked(), Resolve(p))))
    && (rv == 0 ==> (Resolve(p) in fs.dirs <==> Resolve(p) !in fs.files))
    && Grown(before, fs.dirs, Resolve(p))
  }

  /**
   Creates the directory and its missing ancestors. For every path, and whatever the file system answers,
   the recursion ends and the buffer is restored byte for byte on every way out. For plain paths the call
   succeeds exactly if it names an existing file, or is not empty and nothing missing on the way is refused
   or a file; then the directory, hence every ancestor, exists, save where a file has the name; nothing else
   is created.
   */
  method MkdirRec(fs: FileSystem, path: array<char>, ghost n: nat) returns (rv: int)
    requires fs.Valid() && HoldsString(path[..], n)
    modifies fs, path
    ensures fs.Valid() && path[..] == old(path[..])
    ensures rv == 0 || rv == -1
    ensures Plain(path[..n]) ==> MkdirMeaning(old(fs.dirs), fs, path[..n], rv)
    decreases if path[..n] == "." then 0 else n + 1, 2
  {
    var lenOrig := StrLen(path, n);
    var p := path[..lenOrig];
    ghost var before := path[..];
    ghost var place := Resolve(p);
    var r := fs.MakeDir(p);
    if r == Created || r == Exists {
      if Plain(p) {
        FirstTry(old(fs.dirs), fs, p, r);
      }
      return 0;
    }
    if r == Refused {
      if Plain(p) {
        RefusedForGood(fs, place);
      }
      return -1;
    }
    var wild := IsWildcardDirectory(p);
    if wild {
      DotDotIsNotPlain();
      return 0;
    }
    rv := ParentFirst(fs, path, lenOrig);
  }

  /** The place is neither a directory nor a file, nor under a file. */
  ghost predicate Absent(fs: FileSystem, l: Place)
    reads fs
  {
    l !in fs.dirs && l !in fs.files && !UnderFile(fs.files, l)
  }

  /** What the recursive call for the parent leaves: `rv` tells whether the parent could be created. */
  ghost predicate ParentMade(before: set<Place>, after: set<Place>, refused: set<Place>, l: Place, rv: int) {
    && l.components != []
    && Grown(before, after, Parent(l))
    && (rv == 0 <==> MayCreate(before, refused, Parent(l)))
    && (rv == 0 ==> Parent(l) in after)
  }

  /** A path without a separator in front of its last name: the recursive call is for ".". */
  method ParentIsHere(fs: FileSystem, path: array<char>, lenOrig: nat) returns (rv: int)
    requires fs.Valid() && HoldsString(path[..], lenOrig)
    requires path[..lenOrig] != "." && |Split(path[..lenOrig])| <= 1
    modifies fs, path
    ensures fs.Valid() && path[..] == old(path[..]) && fs.dirs == old(fs.dirs) && rv == 0
    ensures path[..lenOrig] != [] && Resolve(path[..lenOrig]) !in fs.dirs ==>
              ParentMade(old(fs.dirs), fs.dirs, fs.Blocked(), Resolve(path[..lenOrig]), rv)
    decreases lenOrig + 1, 0
  {
    ghost var before, p := path[..], path[..lenOrig];
    HereIsFine(fs);
    var here := new char[2]['.', NUL];
    assert here[..1] == ".";
    rv := MkdirRec(fs, here, 1);
    var len := StrLen(path, lenOrig);
    assert CutBuffer(before, lenOrig, lenOrig) == before;
    RestoreSeparators(path, len, lenOrig, before, lenOrig);
    assert path[..lenOrig] == p;
    if p != [] && Resolve(p) !in fs.dirs {
      SingleName(fs, p);
    }
  }

  lemma SliceOfPrefix(s: seq<char>, n: nat, i: nat, j: nat)
    requires i <= j <= n <= |s|
    ensures s[..n][i..j] == s[i..j]
  {
  }

  /** A path cut in front of its last name: the recursive call is for what stands before the cut. */
  method ParentIsPrefix(fs: FileSystem, path: array<char>, lenOrig: nat, ghost before: seq<char>,
                        ghost cut: nat, ghost name: nat, ghost end: nat) returns (rv: int)
    requires fs.Valid() && HoldsString(before, lenOrig) && lenOrig < path.Length == |before|
    requires CutAt(before[..lenOrig], cut, name, end)
    requires Plain(before[..lenOrig]) ==> !UnderFile(fs.files, Resolve(before[..lenOrig]))
    requires path[..] == CutBuffer(before, cut, name) && HoldsString(path[..], cut)
    modifies fs, path
    ensures fs.Valid() && path[..] == before
    ensures before[..lenOrig] != []
    ensures Plain(before[..lenOrig]) ==>
              ParentMade(old(fs.dirs), fs.dirs, fs.Blocked(), Resolve(before[..lenOrig]), rv)
    decreases lenOrig + 1, 0
  {
    hide MayCreate, Grown, Split, Plain;
    ghost var p := before[..lenOrig];
    if Plain(p) {
      CutIsParent(p, cut, name, end);
      ParentIsNoFile(fs, Resolve(p));
    }
    assert path[..cut] == p[..cut];
    SliceOfPrefix(before, lenOrig, cut, name);
    rv := MkdirRec(fs, path, cut);
    assert path[..cut] == p[..cut] && p[..cut] != [];
    var len := StrLen(path, cut);
    RestoreSeparators(path, len, lenOrig, before, name);
  }

  /** The second half: the parent through a recursive call, the buffer restored, then the directory. */
  method ParentFirst(fs: FileSystem, path: array<char>, lenOrig: nat) returns (rv: int)
    requires fs.Valid() && HoldsString(path[..], lenOrig) && path[..lenOrig] != "."
    requires Plain(path[..lenOrig]) ==> path[..lenOrig] == [] || Absent(fs, Resolve(path[..lenOrig]))
    modifies fs, path
    ensures fs.Valid() && path[..] == old(path[..])
    ensures rv == 0 || rv == -1
    ensures Plain(path[..lenOrig]) ==> MkdirMeaning(old(fs.dirs), fs, path[..lenOrig], rv)
    decreases lenOrig + 1, 1
  {
    hide MayCreate, Grown, Split, Plain, CutBuffer, CutAt, Resolve;
    ghost var before, p := path[..], path[..lenOrig];
    var dot;
    ghost var cut, name, end;
    dot, cut, name, end := InternalDirname(path, lenOrig);
    if dot {
      rv := ParentIsHere(fs, path, lenOrig);
    } else {
      rv := ParentIsPrefix(fs, path, lenOrig, before, cut, name, end);
    }
    assert path[..lenOrig] == p;
    if rv != 0 {
      if Plain(p) {
        ParentFailed(old(fs.dirs), fs, Resolve(p));
      }
      return -1;
    }
    if Plain(p) && p != [] {
      ParentDone(old(fs.dirs), fs, Resolve(p));
    } else {
      NothingGrown(fs.dirs, Resolve(p));
    }
    ghost var dirs := fs.dirs;
    var r := fs.MakeDir(path[..lenOrig]);
    assert Plain(p) ==> fs.dirs == if r == Created then dirs + {Resolve(p)} else dirs;
    assert Plain(p) ==> p == [] || r == Created || r == Refused;
    rv := if r == Created then 0 else -1;
  }

  lemma NothingGrown(dirs: set<Place>, l: Place)
    ensures Grown(dirs, dirs, l)
  {
  }

  /** A single component that does not exist: its parent does. */
  lemma SingleName(fs: FileSystem, p: string)
    requires fs.Valid() && p != [] && p != "." && |Split(p)| <= 1 && Resolve(p) !in fs.dirs
    ensures ParentMade(fs.dirs, fs.dirs, fs.Blocked(), Resolve(p), 0)
  {
    SomethingNamed(fs, p);
    ShortParent(fs, Resolve(p));
    AllExist(fs, Parent(Resolve(p)));
  }

  lemma SomethingNamed(fs: FileSystem, p: string)
    requires fs.Valid() && p != [] && Resolve(p) !in fs.dirs
    ensures Resolve(p).components != []
  {
    assert Resolve(p).components == [] ==> Resolve(p) == ROOT || Resolve(p) == HERE;
  }

  lemma DotDotIsNotPlain()
    ensures !Plain("..")
  {
    assert [] + ".." == "..";
    SplitBase([], "..");
  }

  lemma FirstTry(before: set<Place>, fs: FileSystem, p: string, r: Outcome)
    requires fs.Valid() && p != [] && (r == Created || r == Exists)
    requires r == Created ==> fs.dirs == before + {Resolve(p)} && Resolve(p) !in fs.Blocked()
    requires r == Exists ==> fs.dirs == before && (Resolve(p) in fs.dirs || Resolve(p) in fs.files)
    ensures MkdirMeaning(before, fs, p, 0)
  {
    var l := Resolve(p);
    UptoSelf(l);
    if l in fs.dirs {
      forall k | 0 <= k <= |l.components| ensures Upto(l, k) in before || Upto(l, k) !in fs.Blocked() {
        AncestorsExist(fs, l, k);
      }
    }
  }
}
