/**
 Splitting a path into directory and base name (src/utils.c): backward scans for separators, and a move of
 the result into a buffer that may overlap the path. The separators are '/' or, on Windows, '/' and '\'.
 */
module PathNames {

  import opened Basics
  import Mkdir

  predicate IsSep(windows: bool, c: char) {
    c == '/' || (windows && c == '\\')
  }

  ghost predicate SepsIn(windows: bool, s: string, i: nat, j: nat)
    requires i <= j <= |s|
  {
    forall k :: i <= k < j ==> IsSep(windows, s[k])
  }

  ghost predicate NoSepsIn(windows: bool, s: string, i: nat, j: nat)
    requires i <= j <= |s|
  {
    forall k :: i <= k < j ==> !IsSep(windows, s[k])
  }

  ghost predicate OnlySeps(windows: bool, s: string) {
    SepsIn(windows, s, 0, |s|)
  }

  // ---------------------------------------------------------------- the names

  /** The length without trailing separators. */
  function Trimmed(windows: bool, s: string): (n: nat)
    ensures n <= |s| && SepsIn(windows, s, n, |s|) && (n > 0 ==> !IsSep(windows, s[n - 1]))
  {
    if s == [] then 0
    else if IsSep(windows, s[|s| - 1]) then Trimmed(windows, s[..|s| - 1])
    else |s|
  }

  /** Where the trailing run of characters other than separators starts. */
  function BaseStart(windows: bool, s: string): (b: nat)
    ensures b <= |s| && NoSepsIn(windows, s, b, |s|) && (b > 0 ==> IsSep(windows, s[b - 1]))
  {
    if s == [] || IsSep(windows, s[|s| - 1]) then |s| else BaseStart(windows, s[..|s| - 1])
  }

  /** The base name; "." for the empty path, one separator for a path of separators only. */
  function BaseName(windows: bool, s: string): string {
    var e := Trimmed(windows, s);
    if s == [] then "." else if e == 0 then s[..1] else s[BaseStart(windows, s[..e])..e]
  }

  /** The directory name; "." if the base name starts the path, one separator for the root. */
  function DirName(windows: bool, s: string): string {
    var e := Trimmed(windows, s);
    if s == [] then "."
    else if e == 0 then s[..1]
    else
      var b := BaseStart(windows, s[..e]);
      var d := Trimmed(windows, s[..b]);
      if b == 0 then "." else if d == 0 then s[..1] else s[..d]
  }

  /** A path cut into directory, separators, base name and trailing separators. */
  ghost predicate Anatomy(windows: bool, s: string, d: nat, b: nat, e: nat) {
    && d <= b < e <= |s|
    && SepsIn(windows, s, d, b) && NoSepsIn(windows, s, b, e) && SepsIn(windows, s, e, |s|)
    && (d > 0 ==> d < b && !IsSep(windows, s[d - 1]))
  }

  /** Such a cut is unique, and the two names are read off it. */
  lemma AnatomyGivesNames(windows: bool, s: string, d: nat, b: nat, e: nat)
    requires Anatomy(windows, s, d, b, e)
    ensures Trimmed(windows, s) == e && BaseStart(windows, s[..e]) == b && Trimmed(windows, s[..b]) == d
    ensures BaseName(windows, s) == s[b..e]
    ensures DirName(windows, s) == if d > 0 then s[..d] else if b > 0 then s[..1] else "."
  {
    assert !IsSep(windows, s[e - 1]);
    assert Trimmed(windows, s) == e;
    assert b > 0 ==> IsSep(windows, s[b - 1]);
    assert BaseStart(windows, s[..e]) == b;
    assert Trimmed(windows, s[..b]) == d;
  }

  /** Every path that holds some other character than separators can be cut so; the others cannot. */
  lemma AnatomyExactly(windows: bool, s: string)
    ensures (exists d, b, e :: Anatomy(windows, s, d, b, e)) <==> !OnlySeps(windows, s)
  {
    if !OnlySeps(windows, s) {
      var e := Trimmed(windows, s);
      var b := BaseStart(windows, s[..e]);
      var d := Trimmed(windows, s[..b]);
      assert NoSepsIn(windows, s, b, e) by { assert s[..e][..e] == s[..e]; }
      assert Anatomy(windows, s, d, b, e);
    }
    forall d: nat, b: nat, e: nat | Anatomy(windows, s, d, b, e) ensures !OnlySeps(windows, s) {
      assert !IsSep(windows, s[b]);
    }
  }

  lemma TakeApart(windows: bool, s: string) returns (d: nat, b: nat, e: nat)
    requires !OnlySeps(windows, s)
    ensures Anatomy(windows, s, d, b, e)
    ensures Trimmed(windows, s) == e && BaseStart(windows, s[..e]) == b && Trimmed(windows, s[..b]) == d
    ensures BaseName(windows, s) == s[b..e]
    ensures DirName(windows, s) == if d > 0 then s[..d] else if b > 0 then s[..1] else "."
  {
    AnatomyExactly(windows, s);
    d, b, e :| Anatomy(windows, s, d, b, e);
    AnatomyGivesNames(windows, s, d, b, e);
  }

  /** The paths without a name: the empty one gives "." twice, one of separators a single separator twice. */
  lemma NamelessPaths(windows: bool, s: string)
    requires OnlySeps(windows, s)
    ensures Trimmed(windows, s) == 0
    ensures BaseName(windows, s) == DirName(windows, s) == if s == [] then "." else s[..1]
  {
    assert Trimmed(windows, s) == 0;
  }

  /** Putting the two names together with any separator and splitting again gives the same two names. */
  lemma JoinSplits(windows: bool, s: string, sep: char)
    requires IsSep(windows, sep) && !OnlySeps(windows, s)
    ensures BaseName(windows, DirName(windows, s) + [sep] + BaseName(windows, s)) == BaseName(windows, s)
    ensures DirName(windows, DirName(windows, s) + [sep] + BaseName(windows, s)) == DirName(windows, s)
  {
    hide BaseName, DirName, Trimmed, BaseStart;
    var d, b, e := TakeApart(windows, s);
    var q, base := DirName(windows, s), BaseName(windows, s);
    assert NoSepsIn(windows, base, 0, |base|);
    Joined(windows, q, sep, base, if d == 0 && b > 0 then 0 else |q|);
  }

  lemma Joined(windows: bool, q: string, sep: char, base: string, d: nat)
    requires IsSep(windows, sep) && base != [] && NoSepsIn(windows, base, 0, |base|)
    requires if d == 0 then |q| == 1 && IsSep(windows, q[0]) else d == |q| && !IsSep(windows, q[d - 1])
    ensures BaseName(windows, q + [sep] + base) == base && DirName(windows, q + [sep] + base) == q
  {
    hide BaseName, DirName, Trimmed, BaseStart;
    var all, b := q + [sep] + base, |q| + 1;
    assert forall k :: b <= k < |all| ==> all[k] == base[k - b];
    assert all[..|q|] == q && all[b..|all|] == base;
    AnatomyGivesNames(windows, all, d, b, |all|);
  }

  /** Both names fit the buffer that the documentation asks for. */
  lemma NamesFit(windows: bool, s: string)
    ensures 0 < |BaseName(windows, s)| < if |s| == 0 then 2 else |s| + 1
    ensures 0 < |DirName(windows, s)| < if |s| == 0 then 2 else |s| + 1
  {
    hide BaseName, DirName, Trimmed, BaseStart;
    if OnlySeps(windows, s) {
      NamelessPaths(windows, s);
    } else {
      var d, b, e := TakeApart(windows, s);
    }
  }

  // ---------------------------------------------------------------- climbing

  function Climb(windows: bool, s: string, k: nat): string
    decreases k
  {
    if k == 0 then s else Climb(windows, DirName(windows, s), k - 1)
  }

  /** Where climbing ends: a lone separator, the first of the path, or ".". */
  function Top(windows: bool, s: string): string {
    if s != [] && IsSep(windows, s[0]) then s[..1] else "."
  }

  /** One step up keeps the end of the climb, and gets shorter unless it has arrived. */
  lemma StepUp(windows: bool, s: string)
    ensures Top(windows, DirName(windows, s)) == Top(windows, s)
    ensures DirName(windows, s) == Top(windows, s) || |DirName(windows, s)| < |s|
    ensures s == Top(windows, s) ==> DirName(windows, s) == s
  {
    hide BaseName, DirName, Trimmed, BaseStart;
    if OnlySeps(windows, s) {
      NamelessPaths(windows, s);
    } else {
      var d, b, e := TakeApart(windows, s);
      assert d > 0 ==> s[..d][..1] == s[..1];
    }
  }

  /** From every path, taking directory names arrives at the top, and stays there. */
  lemma {:induction false} ClimbArrives(windows: bool, s: string, k: nat)
    requires k >= |s| + 1 || (s == Top(windows, s))
    ensures Climb(windows, s, k) == Top(windows, s)
    decreases k
  {
    if k > 0 {
      StepUp(windows, s);
      ClimbArrives(windows, DirName(windows, s), k - 1);
    }
  }

  ghost predicate LeadsTo(s: string, dir: string, base: string) {
    var l := Mkdir.Resolve(s);
    l.components != [] && Mkdir.Resolve(dir) == Mkdir.Parent(l) && l.components[|l.components| - 1] == base
  }

  /** For the directory tree: the directory name leads to the parent, and the base name is the last component. */
  lemma NamesInTheTree(s: string)
    requires !OnlySeps(false, s) && Mkdir.Plain(s) && s != "."
    ensures LeadsTo(s, DirName(false, s), BaseName(false, s))
  {
    hide BaseName, DirName, Trimmed, BaseStart, LeadsTo;
    var d, b, e := TakeApart(false, s);
    if d > 0 {
      DeepInTheTree(s, d, b, e);
    } else {
      TopOfTheTree(s, b, e);
    }
  }

  lemma DeepInTheTree(s: string, d: nat, b: nat, e: nat)
    requires Anatomy(false, s, d, b, e) && d > 0 && Mkdir.Plain(s)
    ensures LeadsTo(s, s[..d], s[b..e])
  {
    hide Mkdir.Split, Mkdir.Plain;
    assert forall k :: b <= k < e ==> s[k] != '/';
    Mkdir.SplitCut(s, d, b, e);
    Mkdir.CutIsParent(s, d, b, e);
    assert Mkdir.Resolve(s).components == Mkdir.Split(s);
  }

  lemma TopOfTheTree(s: string, b: nat, e: nat)
    requires Anatomy(false, s, 0, b, e) && s != "."
    ensures LeadsTo(s, if b > 0 then s[..1] else ".", s[b..e])
  {
    hide Mkdir.Split;
    SingleComponent(s, b, e);
    assert Mkdir.Resolve(s).components == [s[b..e]];
    assert Mkdir.Parent(Mkdir.Resolve(s)).components == [];
    assert b > 0 ==> s[..1][0] == s[0] == '/';
    assert b == 0 ==> s[0] != '/';
  }

  lemma SingleComponent(s: string, b: nat, e: nat)
    requires Anatomy(false, s, 0, b, e)
    ensures Mkdir.Split(s) == [s[b..e]] && Mkdir.Split(s[..if b > 0 then 1 else 0]) == []
  {
    var front, base := s[..b], s[b..e];
    assert s == front + base + s[e..];
    Mkdir.SplitSeps(front + base, s[e..]);
    Mkdir.SplitBase(front, base);
    assert [] + front == front && [] + s[..1] == s[..1];
    Mkdir.SplitSeps([], front);
    assert b == 0 ==> s[..0] == [];
  }

  // ---------------------------------------------------------------- the code

  method GetLastNonsep(windows: bool, s: string) returns (c: int)
    ensures c == if s == [] then -1 else if Trimmed(windows, s) == 0 then 0 else Trimmed(windows, s) - 1
  {
    c := |s| - 1;
    while c > 0 && IsSep(windows, s[c])
      invariant -1 <= c < |s| && (s != [] ==> c >= 0)
      invariant SepsIn(windows, s, c + 1, |s|)
    {
      c := c - 1;
    }
  }

  method GetBasename(windows: bool, s: string) returns (b: nat)
    ensures b == if OnlySeps(windows, s) then 0 else BaseStart(windows, s[..Trimmed(windows, s)])
    ensures b <= |s|
  {
    var last := GetLastNonsep(windows, s);
    ghost var e := Trimmed(windows, s);
    var c := last - 1;
    while c >= 0
      invariant c >= 0 ==> c < last == e - 1
      invariant e > 0 ==> -1 <= c < e && NoSepsIn(windows, s, c + 1, e)
    {
      if IsSep(windows, s[c]) {
        return c + 1;
      }
      c := c - 1;
    }
    return 0;
  }

  /** The memory holds the NUL-terminated string `s` at an address; no address stands for the empty string. */
  ghost predicate StringIn(mem: seq<char>, at: Option<nat>, s: string) {
    match at
    case None => s == []
    case Some(p) => p + |s| < |mem| && mem[p..p + |s|] == s && mem[p + |s|] == NUL && NUL !in s
  }

  function Overwritten(mem: seq<char>, at: nat, text: string): seq<char>
    requires at + |text| <= |mem|
  {
    mem[..at] + text + mem[at + |text|..]
  }

  /** The text stands at its place, and every other character is the old one. */
  lemma OverwrittenAt(mem: seq<char>, at: nat, text: string, i: nat)
    requires at + |text| <= |mem| && i < |mem|
    ensures |Overwritten(mem, at, text)| == |mem|
    ensures Overwritten(mem, at, text)[i] == if at <= i < at + |text| then text[i - at] else mem[i]
  {
  }

  method ReadString(mem: array<char>, at: Option<nat>, ghost text: string) returns (s: string)
    requires StringIn(mem[..], at, text)
    ensures s == text
  {
    if at.None? {
      return "";
    }
    var p := at.value;
    s := [];
    assert forall i :: 0 <= i < |text| ==> text[i] == mem[..][p..p + |text|][i] == mem[p + i];
    while mem[p + |s|] != NUL
      invariant |s| <= |text| && s == text[..|s|]
      decreases |text| - |s|
    {
      s := s + [mem[p + |s|]];
    }
  }

  /** Moves a string into a buffer that may overlap it, and terminates it. */
  method Deliver(mem: array<char>, to: nat, text: string)
    requires to + |text| < mem.Length
    modifies mem
    ensures mem[..] == Overwritten(old(mem[..]), to, text + [NUL])
  {
    forall i | 0 <= i < |text| {
      mem[to + i] := text[i];
    }
    mem[to + |text|] := NUL;
  }

  /** The base name is written with its terminator, and nothing else changes; also if the buffers overlap. */
  method BaseNameInto(windows: bool, mem: array<char>, base: Option<nat>, path: Option<nat>, ghost text: string)
      returns (len: nat)
    requires StringIn(mem[..], path, text)
    requires base.Some? ==> base.value + (if |text| == 0 then 2 else |text| + 1) <= mem.Length
    modifies mem
    ensures len == |BaseName(windows, text)|
    ensures base.None? ==> mem[..] == old(mem[..])
    ensures base.Some? ==> base.value + len < mem.Length
    ensures base.Some? ==> mem[..] == Overwritten(old(mem[..]), base.value, BaseName(windows, text) + [NUL])
  {
    hide BaseName, DirName, Trimmed, BaseStart, Overwritten;
    NamesFit(windows, text);
    var s := ReadString(mem, path, text);
    var b := GetBasename(windows, s);
    var last := GetLastNonsep(windows, s);
    BaseReadOff(windows, text, b, last);
    len := if last + 1 - b <= 0 then 1 else last + 1 - b;
    var name := if s == [] then "." else s[b..b + len];
    if base.Some? {
      Deliver(mem, base.value, name);
    }
  }

  lemma BaseReadOff(windows: bool, s: string, b: nat, last: int)
    requires b == if OnlySeps(windows, s) then 0 else BaseStart(windows, s[..Trimmed(windows, s)])
    requires last == if s == [] then -1 else if Trimmed(windows, s) == 0 then 0 else Trimmed(windows, s) - 1
    ensures s == [] ==> last + 1 - b <= 0 && BaseName(windows, s) == "."
    ensures s != [] ==> b <= last < |s| && BaseName(windows, s) == s[b..last + 1]
  {
    hide BaseName, DirName, Trimmed, BaseStart;
    if OnlySeps(windows, s) {
      NamelessPaths(windows, s);
    } else {
      var d, b, e := TakeApart(windows, s);
    }
  }

  lemma DirReadOff(windows: bool, s: string, b: nat)
    requires b == if OnlySeps(windows, s) then 0 else BaseStart(windows, s[..Trimmed(windows, s)])
    ensures b == 0 ==> DirName(windows, s) == if s != [] && IsSep(windows, s[0]) then s[..1] else "."
    ensures b > 0 ==> b <= |s|
    ensures b > 0 ==> DirName(windows, s) == s[..if Trimmed(windows, s[..b]) == 0 then 1 else Trimmed(windows, s[..b])]
  {
    hide BaseName, DirName, Trimmed, BaseStart;
    if OnlySeps(windows, s) {
      NamelessPaths(windows, s);
    } else {
      var d, b, e := TakeApart(windows, s);
    }
  }

  method SkipSeparators(windows: bool, s: string, b: nat) returns (last: nat)
    requires 0 < b <= |s|
    ensures last == if Trimmed(windows, s[..b]) == 0 then 0 else Trimmed(windows, s[..b]) - 1
  {
    last := b - 1;
    while last > 0 && IsSep(windows, s[last])
      invariant 0 <= last < b
      invariant SepsIn(windows, s, last + 1, b)
    {
      last := last - 1;
    }
    assert Trimmed(windows, s[..b]) == if IsSep(windows, s[last]) then 0 else last + 1;
  }

  /** The directory name is written with its terminator, and nothing else changes; also if the buffers overlap. */
  method DirNameInto(windows: bool, mem: array<char>, dir: Option<nat>, path: Option<nat>, ghost text: string)
      returns (len: nat)
    requires StringIn(mem[..], path, text)
    requires dir.Some? ==> dir.value + (if |text| == 0 then 2 else |text| + 1) <= mem.Length
    modifies mem
    ensures len == |DirName(windows, text)|
    ensures dir.None? ==> mem[..] == old(mem[..])
    ensures dir.Some? ==> dir.value + len < mem.Length
    ensures dir.Some? ==> mem[..] == Overwritten(old(mem[..]), dir.value, DirName(windows, text) + [NUL])
  {
    hide BaseName, DirName, Trimmed, BaseStart, Overwritten;
    NamesFit(windows, text);
    var s := ReadString(mem, path, text);
    var b := GetBasename(windows, s);
    DirReadOff(windows, text, b);
    var name := if s != [] && IsSep(windows, s[0]) then s[..1] else ".";
    if b != 0 {
      var last := SkipSeparators(windows, s, b);
      name := s[..last + 1];
    }
    len := |name|;
    assert name == DirName(windows, text);
    if dir.Some? {
      Deliver(mem, dir.value, name);
    }
  }
}
