/**
 What the operations on POSIX file paths compute, and the laws that relate them.
 */
module PathAlgebra {

  predicate IsSeparator(c: char) {
    c == '/'
  }

  predicate IsAbsolute(p: string) {
    p != "" && IsSeparator(p[0])
  }

  predicate EndsInSeparator(p: string) {
    p != "" && IsSeparator(p[|p| - 1])
  }

  predicate AllSeparators(p: string) {
    forall i | 0 <= i < |p| :: IsSeparator(p[i])
  }

  /** The last index of `c`, or -1. */
  function LastIndex(p: string, c: char): (k: int)
    ensures -1 <= k < |p| && (k >= 0 ==> p[k] == c)
    ensures forall i | k < i < |p| :: p[i] != c
  {
    if p == "" then -1
    else if p[|p| - 1] == c then |p| - 1
    else LastIndex(p[..|p| - 1], c)
  }

  lemma LastIndexIs(p: string, c: char, k: int)
    requires -1 <= k < |p| && (k >= 0 ==> p[k] == c)
    requires forall i | k < i < |p| :: p[i] != c
    ensures LastIndex(p, c) == k
  {
  }

  // ----- Trailing separators -----

  /** All trailing separators go, except that one character stays. */
  function DropSeparators(p: string): (r: string)
    ensures r <= p && (EndsInSeparator(r) ==> |r| == 1) && (p != "" ==> r != "")
  {
    if |p| > 1 && EndsInSeparator(p) then DropSeparators(p[..|p| - 1]) else p
  }

  /** Exactly two leading separators name an alternate root and stay. */
  function Strip(p: string): string {
    if p == "//" then p else DropSeparators(p)
  }

  lemma {:induction false} DropSeparatorsIs(p: string, r: string)
    requires r <= p && r != "" && (EndsInSeparator(r) ==> |r| == 1)
    requires AllSeparators(p[|r|..])
    ensures DropSeparators(p) == r
  {
    if |p| > |r| {
      assert p[|p| - 1] == p[|r|..][|p| - |r| - 1];
      var shorter := p[..|p| - 1];
      assert shorter[|r|..] == p[|r|..][..|p| - 1 - |r|];
      DropSeparatorsIs(shorter, r);
    } else {
      assert r == p;
    }
  }

  lemma {:induction false} DroppedAreSeparators(p: string)
    ensures AllSeparators(p[|DropSeparators(p)|..])
  {
    if |p| > 1 && EndsInSeparator(p) {
      var shorter := p[..|p| - 1];
      DroppedAreSeparators(shorter);
      var n := |DropSeparators(p)|;
      assert p[n..] == shorter[n..] + [p[|p| - 1]];
    }
  }

  lemma StripTwice(p: string)
    ensures Strip(Strip(p)) == Strip(p)
  {
  }

  lemma StripShortens(p: string)
    ensures |Strip(p)| <= |p|
  {
  }

  /** What a stripped path looks like. */
  lemma StrippedEnds(p: string)
    requires Strip(p) == p
    ensures EndsInSeparator(p) ==> p == "/" || p == "//"
  {
    if p != "//" && EndsInSeparator(p) {
      assert |p| == 1;
      assert p == [p[0]];
    }
  }

  // ----- Directory and base name -----

  function DirName(p: string): string {
    var s := Strip(p);
    var k := LastIndex(s, '/');
    if k == -1 then "."
    else if k == 0 then "/"
    else if k == 1 && IsSeparator(s[0]) then "//"
    else Strip(s[..k])
  }

  function BaseName(p: string): string {
    var s := Strip(p);
    var k := LastIndex(s, '/');
    if k != -1 && k < |s| - 1 then s[k + 1..] else s
  }

  /** Joining with a component; the current directory adds nothing. */
  function Append(p: string, component: string): string {
    if p == "." then component
    else
      var s := Strip(p);
      (if component != "" && s != "" && !EndsInSeparator(s) then s + "/" else s) + component
  }

  lemma DirNameIsStripped(p: string)
    ensures Strip(DirName(p)) == DirName(p) && DirName(p) != ""
  {
    var s := Strip(p);
    var k := LastIndex(s, '/');
    if k > 0 {
      StripTwice(s[..k]);
    }
    assert !EndsInSeparator(".");
  }

  lemma DirNameIgnoresTrailing(p: string)
    ensures DirName(Strip(p)) == DirName(p) && BaseName(Strip(p)) == BaseName(p)
  {
    StripTwice(p);
  }

  /** The path that appending puts in front of the component. */
  function Stem(s: string): string {
    if EndsInSeparator(s) then s else s + "/"
  }

  /** Appending to a stripped path something relative: stripping, splitting off the
      directory and the base name only look at the appended part. */
  lemma StripAppended(s: string, c: string)
    requires Strip(s) == s && s != "" && c != "" && !IsAbsolute(c)
    ensures Strip(Stem(s) + c) == Stem(s) + DropSeparators(c)
    ensures DropSeparators(c) != "" && !IsAbsolute(DropSeparators(c)) && !EndsInSeparator(DropSeparators(c))
  {
    var (stem, c') := (Stem(s), DropSeparators(c));
    DroppedAreSeparators(c);
    assert (stem + c)[|stem|] == c[0];
    assert stem + c != "//";
    assert c == c' + c[|c'|..];
    assert stem + c == (stem + c') + c[|c'|..];
    assert (stem + c)[|stem + c'|..] == c[|c'|..];
    DropSeparatorsIs(stem + c, stem + c');
  }

  lemma DirNameAppendedName(s: string, c: string)
    requires Strip(s) == s && s != "" && c != "" && !IsAbsolute(c) && '/' !in DropSeparators(c)
    ensures DirName(Stem(s) + c) == s && BaseName(Stem(s) + c) == DropSeparators(c)
  {
    hide DropSeparators, LastIndex, Strip;
    var (stem, c') := (Stem(s), DropSeparators(c));
    StripAppended(s, c);
    StrippedEnds(s);
    var q := stem + c';
    assert forall i | |stem| <= i < |q| :: q[i] == c'[i - |stem|];
    LastIndexIs(q, '/', |stem| - 1);
    assert q[|stem|..] == c';
    if !EndsInSeparator(s) {
      assert q[..|s|] == s;
    }
  }

  lemma DirNameAppendedPath(s: string, c: string)
    requires Strip(s) == s && s != "" && c != "" && !IsAbsolute(c) && '/' in DropSeparators(c)
    ensures var c' := DropSeparators(c);
            var k := LastIndex(c', '/');
            && 0 < k < |c'| - 1
            && DirName(Stem(s) + c) == Stem(s) + DropSeparators(c'[..k])
            && BaseName(Stem(s) + c) == c'[k + 1..] && !AllSeparators(c'[k + 1..])
  {
    hide DropSeparators, LastIndex, Strip, DirName, BaseName;
    var (stem, c') := (Stem(s), DropSeparators(c));
    StripAppended(s, c);
    var k := LastIndex(c', '/');
    assert k > 0;
    LastIndexShifted(stem, c', k);
    SplitAt(stem + c, stem + c', |stem| + k);
    StripAppended(s, c'[..k]);
    assert c'[k + 1..][|c'| - k - 2] == c'[|c'| - 1];
  }

  /** Directory and base name when the last separator is well inside. */
  lemma SplitAt(p: string, q: string, k: nat)
    requires Strip(p) == q && LastIndex(q, '/') == k && 1 < k < |q| - 1
    ensures DirName(p) == Strip(q[..k]) && BaseName(p) == q[k + 1..]
  {
    hide Strip, LastIndex;
  }

  lemma LastIndexShifted(stem: string, c: string, k: nat)
    requires LastIndex(c, '/') == k
    ensures LastIndex(stem + c, '/') == |stem| + k
    ensures (stem + c)[..|stem| + k] == stem + c[..k] && (stem + c)[|stem| + k + 1..] == c[k + 1..]
  {
    var q := stem + c;
    assert forall i | |stem| <= i < |q| :: q[i] == c[i - |stem|];
    LastIndexIs(q, '/', |stem| + k);
  }

  /** Appending a name and taking the path apart again. */
  lemma AppendThenSplit(p: string, name: string)
    requires p != "" && name != "" && '/' !in name
    ensures BaseName(Append(p, name)) == name && DirName(Append(p, name)) == Strip(p)
  {
    if p == "." {
      LastIndexIs(name, '/', -1);
    } else {
      StripTwice(p);
      DropSeparatorsIs(name, name);
      DirNameAppendedName(Strip(p), name);
    }
  }

  // ----- Components -----

  /** Going to the directory ends: it shortens the path, or turns one name into the
      current directory, or changes nothing. */
  lemma DirNameShrinks(p: string)
    requires p != "" && DirName(p) != p
    ensures |DirName(p)| < |p| || (|DirName(p)| == |p| && DirName(p) == "." && p != ".")
  {
  }

  /** Exactly when the directory is the alternate root: the stripped path starts with
      it and has no separator behind its third character. */
  lemma AlternateRoot(p: string)
    ensures DirName(p) == "//" <==>
            "//" <= Strip(p) && forall i | 3 <= i < |Strip(p)| :: Strip(p)[i] != '/'
  {
    var s := Strip(p);
    var k := LastIndex(s, '/');
    StripTwice(p);
    StrippedEnds(s);
    if "//" <= s {
      assert s[0] == "//"[0] && s[1] == "//"[1] && k >= 1;
    }
    if k > 1 {
      var d := s[..k];
      AlternateRootIsOnlyItself(d);
      if d == "//" {
        assert s[0] == d[0] && s[1] == d[1];
      }
    }
  }

  lemma AlternateRootIsOnlyItself(p: string)
    ensures Strip(p) == "//" <==> p == "//"
  {
    assert EndsInSeparator("//");
  }

  /** Three separators in front count as two. */
  lemma ThreeSeparators()
    ensures DirName("///x") == "//" && DirName("//x") == "//" && DirName("////x") == "/"
  {
    LastIndexIs("///x", '/', 2);
    LastIndexIs("//x", '/', 1);
    LastIndexIs("////x", '/', 3);
    assert "///x"[..2] == "//" && "////x"[..3] == "///" && "///"[..2] == "//" && "//"[..1] == "/";
  }

  function Root(p: string): seq<string> {
    var base := BaseName(p);
    if base != "" && base != "." then [base] else []
  }

  /** The base names from the root, which is what its own directory is, down to `p`. */
  function Components(p: string): seq<string>
    requires p != ""
    decreases |p|, if p == "." then 0 else 1
  {
    if DirName(p) == p then Root(p)
    else
      DirNameShrinks(p);
      DirNameIsStripped(p);
      var base := BaseName(p);
      Components(DirName(p)) + if AllSeparators(base) then [] else [base]
  }

  /** One step of collecting components, with those already collected behind. */
  lemma ComponentsStep(p: string, found: seq<string>)
    requires p != "" && DirName(p) != p
    ensures DirName(p) != ""
    ensures |DirName(p)| < |p| || (|DirName(p)| == |p| && DirName(p) == "." && p != ".")
    ensures Components(p) + found ==
            Components(DirName(p)) + if AllSeparators(BaseName(p)) then found else [BaseName(p)] + found
  {
    DirNameShrinks(p);
    DirNameIsStripped(p);
    hide DirName, BaseName, AllSeparators;
    var above := Components(DirName(p));
    assert above + [BaseName(p)] + found == above + ([BaseName(p)] + found);
    assert above + [] == above;
  }

  lemma ComponentsRoot(p: string, found: seq<string>)
    requires p != "" && DirName(p) == p
    ensures Components(p) + found ==
            if BaseName(p) != "" && BaseName(p) != "." then [BaseName(p)] + found else found
  {
    hide DirName, BaseName;
    assert [] + found == found;
  }

  lemma FixedDirectories(s: string)
    requires s != "" && DirName(s) == s
    ensures s == "." || s == "/" || s == "//"
  {
    DirNameIsStripped(s);
    StrippedEnds(s);
    var k := LastIndex(s, '/');
    if k > 0 {
      StripShortens(s[..k]);
    }
  }

  lemma BaseOfStripped(s: string)
    requires s != "" && Strip(s) == s && s != "/" && s != "//"
    ensures !AllSeparators(BaseName(s)) && '/' !in BaseName(s)
  {
    StrippedEnds(s);
    var k := LastIndex(s, '/');
    if k != -1 {
      assert s[k + 1..][|s| - k - 2] == s[|s| - 1];
    }
  }

  lemma BaseIsRelative(p: string)
    requires !AllSeparators(BaseName(p))
    ensures !IsAbsolute(BaseName(p))
  {
    StripTwice(p);
    StrippedEnds(Strip(p));
  }

  /** Only the first component can be a root. */
  lemma {:induction false} ComponentsAreRelative(p: string)
    requires p != ""
    ensures forall i | 1 <= i < |Components(p)| :: !IsAbsolute(Components(p)[i])
    decreases |p|, if p == "." then 0 else 1
  {
    if DirName(p) != p {
      DirNameShrinks(p);
      DirNameIsStripped(p);
      ComponentsAreRelative(DirName(p));
      if !AllSeparators(BaseName(p)) {
        BaseIsRelative(p);
      }
    }
  }

  /** Trailing separators do not change the components, unless the path is the current
      directory written with some. */
  lemma ComponentsIgnoreTrailing(p: string)
    requires p != "" && Strip(p) != "."
    ensures Strip(p) != "" && Components(p) == Components(Strip(p)) && Components(p) != []
  {
    var s := Strip(p);
    StripTwice(p);
    DirNameIgnoresTrailing(p);
    DirNameIsStripped(p);
    if DirName(s) == s {
      FixedDirectories(s);
      RootsAreComponents();
      assert p == s || BaseName(p) == "/";
    } else {
      BaseOfStripped(s);
      assert p != DirName(p);
    }
  }

  lemma RootsAreComponents()
    ensures DirName("/") == "/" && BaseName("/") == "/" && Components("/") == ["/"] && AllSeparators("/")
    ensures DirName("//") == "//" && BaseName("//") == "//" && Components("//") == ["//"]
  {
    LastIndexIs("/", '/', 0);
    LastIndexIs("//", '/', 1);
  }

  lemma {:induction false} ComponentsOfAppended(s: string, c: string)
    requires Strip(s) == s && s != "" && s != "." && c != "" && !IsAbsolute(c)
    ensures |Components(s)| < |Components(Stem(s) + c)| && Components(s) <= Components(Stem(s) + c)
    decreases |c|
  {
    hide Strip, DirName, BaseName, DropSeparators, LastIndex, Root;
    var q := Stem(s) + c;
    var c' := DropSeparators(c);
    StripAppended(s, c);
    DirNameIsStripped(q);
    if '/' in c' {
      DirNameAppendedPath(s, c);
      var k := LastIndex(c', '/');
      StripAppended(s, c'[..k]);
      ComponentsOfAppended(s, DropSeparators(c'[..k]));
    } else {
      DirNameAppendedName(s, c);
      assert !AllSeparators(c') by {
        assert IsAbsolute(c') || !IsSeparator(c'[0]);
      }
    }
  }

  predicate IsStrictPrefix(a: seq<string>, b: seq<string>) {
    a != [] && |a| < |b| && a == b[..|a|]
  }

  /** Any path but the current directory is a strict parent of what is appended to it. */
  lemma ParentOfAppended(p: string, c: string)
    requires p != "" && Strip(p) != "." && c != "" && !IsAbsolute(c)
    ensures Append(p, c) != "" && IsStrictPrefix(Components(p), Components(Append(p, c)))
  {
    StripTwice(p);
    ComponentsIgnoreTrailing(p);
    assert p != "." by {
      assert Strip(".") == ".";
    }
    ComponentsOfAppended(Strip(p), c);
    assert Append(p, c) == Stem(Strip(p)) + c;
  }

  /** The current directory with a trailing separator is no parent of what is appended
      to it: the appended path has lost the component. */
  lemma DotSlashIsNoParent()
    ensures Strip("./") == "." && Append("./", "a") == "./a"
    ensures Components("./") == ["."] && Components("./a") == ["a"]
  {
    DotSlashParts();
    hide DirName, BaseName, Strip;
    assert Components(".") == [] && "a"[0] == 'a' && "."[0] == '.';
    assert !AllSeparators("a") && !AllSeparators(".");
    assert Components("./") == Components(".") + ["."] && Components("./a") == Components(".") + ["a"];
  }

  /** Taking off separators at the end does not change what is at the beginning. */
  lemma {:induction false} DropKeepsDot(c: string)
    requires c != ""
    ensures DropSeparators(c) == "." || "./" <= DropSeparators(c) <==> c == "." || "./" <= c
  {
    if |c| > 1 && IsSeparator(c[|c| - 1]) {
      DropKeepsDot(c[..|c| - 1]);
    }
  }

  /** What follows "./" has a leading "." component only by its own making. */
  lemma {:induction false} ComponentsAfterDot(c: string)
    requires c != "" && !IsAbsolute(c)
    ensures var parts := Components(Stem(".") + c);
            && parts != [] && (|parts| > 1 <==> '/' in DropSeparators(c))
            && (parts[0] == "." <==> DropSeparators(c) == "." || "./" <= DropSeparators(c))
    decreases |c|
  {
    hide Strip, DirName, BaseName, DropSeparators, LastIndex, Root, Components;
    DotParts();
    var c' := DropSeparators(c);
    StripAppended(".", c);
    if '/' in c' {
      var k := LastIndex(c', '/');
      DotComponentsSplit(c, k);
      var d := c'[..k];
      StripAppended(".", d);
      DroppedStays(d);
      DropKeepsDot(d);
      ComponentsAfterDot(DropSeparators(d));
    } else {
      DotComponentsName(c);
    }
  }

  lemma DotComponentsSplit(c: string, k: int)
    requires c != "" && !IsAbsolute(c)
    requires '/' in DropSeparators(c) && k == LastIndex(DropSeparators(c), '/')
    ensures var c' := DropSeparators(c);
            && 0 < k < |c'| - 1 && c'[k] == '/'
            && Components(Stem(".") + c) == Components(Stem(".") + DropSeparators(c'[..k])) + [c'[k + 1..]]
  {
    hide Strip, DirName, BaseName, DropSeparators, LastIndex, Root;
    DotParts();
    var q := Stem(".") + c;
    StripAppended(".", c);
    DirNameIsStripped(q);
    DirNameAppendedPath(".", c);
    StripAppended(".", DropSeparators(c)[..k]);
  }

  lemma DotComponentsName(c: string)
    requires c != "" && !IsAbsolute(c) && '/' !in DropSeparators(c)
    ensures Components(Stem(".") + c) == [DropSeparators(c)] && !("./" <= DropSeparators(c))
  {
    DotParts();
    assert Components(".") == [];
    hide Strip, DirName, BaseName, DropSeparators, LastIndex, Root;
    var c' := DropSeparators(c);
    StripAppended(".", c);
    DirNameAppendedName(".", c);
    assert !IsSeparator(c'[0]) && !AllSeparators(c');
    assert Components(Stem(".") + c) == [] + [c'];
    assert "./"[1] == '/' && forall i | 0 <= i < |c'| :: c'[i] in c';
  }

  lemma DroppedStays(c: string)
    requires !EndsInSeparator(DropSeparators(c))
    ensures DropSeparators(DropSeparators(c)) == DropSeparators(c)
  {
  }

  lemma DotSlashComponents(p: string)
    requires Strip(p) == "."
    ensures p != "" && Components(p) == if p == "." then [] else ["."]
  {
    DotParts();
    assert "."[0] == '.' && !AllSeparators(".");
    DirNameIgnoresTrailing(p);
  }

  /** A path is a strict parent of what is appended to it exactly when it is neither
      empty nor the current directory, or is the latter with separators behind and
      what is appended brings its own leading "." component. */
  lemma ParentExactly(p: string, c: string)
    requires c != "" && !IsAbsolute(c)
    ensures Append(p, c) != ""
    ensures p != "" && IsStrictPrefix(Components(p), Components(Append(p, c))) <==>
            p != "" && p != "." && (Strip(p) == "." ==> "./" <= DropSeparators(c))
  {
    hide Strip, DropSeparators, Components, DirName, BaseName, LastIndex, AllSeparators;
    if p != "" && Strip(p) == "." {
      DotSlashComponents(p);
      if p != "." {
        assert Append(p, c) == Stem(".") + c;
        ComponentsAfterDot(c);
        var parts := Components(Stem(".") + c);
        assert IsStrictPrefix(["."], parts) <==> |parts| > 1 && parts[0] == ".";
        assert "./" <= DropSeparators(c) ==> DropSeparators(c)[1] == '/';
      }
    } else if p != "" {
      DotParts();
      ParentOfAppended(p, c);
    }
  }

  lemma DotSlashParts()
    ensures Strip("./") == "." && Append("./", "a") == "./a"
    ensures DirName("./") == "." && BaseName("./") == "." && DirName(".") == "." && BaseName(".") == "."
    ensures DirName("./a") == "." && BaseName("./a") == "a"
  {
    DotParts();
    assert "./"[..1] == ".";
    DirNameIgnoresTrailing("./");
    assert Stem(".") == "./" && DropSeparators("a") == "a" && "a"[0] == 'a';
    assert "./" + "a" == "./a";
    DirNameAppendedName(".", "a");
  }

  lemma DotParts()
    ensures Strip(".") == "." && DirName(".") == "." && BaseName(".") == "."
  {
    LastIndexIs(".", '/', -1);
  }

  // ----- Extensions -----

  function ToLower(c: char): char {
    if 'A' <= c <= 'Z' then (c as int - 'A' as int + 'a' as int) as char else c
  }

  predicate LowerCaseEquals(a: string, b: string) {
    |a| == |b| && forall i | 0 <= i < |a| :: ToLower(a[i]) == b[i]
  }

  const DOUBLE_EXTENSIONS := ["gz", "z", "bz2"]

  predicate IsDoubleExtension(e: string) {
    exists i | 0 <= i < |DOUBLE_EXTENSIONS| :: LowerCaseEquals(e, DOUBLE_EXTENSIONS[i])
  }

  /** Where the extension starts, or -1: the last dot, or the one before it if the
      last extension is one that usually comes second. */
  function ExtensionPosition(path: string): (dot: int)
    ensures -1 <= dot < |path| && (dot >= 0 ==> path[dot] == '.')
  {
    if path == "." || path == ".." then -1 else
    var last := LastIndex(path, '.');
    if last <= 0 || !IsDoubleExtension(path[last + 1..]) then last else
    var penultimate := LastIndex(path[..last], '.');
    var separator := LastIndex(path[..last], '/');
    if penultimate != -1 && penultimate > separator && 1 < last - penultimate <= 5 then penultimate else last
  }

  function Extension(p: string): string {
    var base := BaseName(p);
    var dot := ExtensionPosition(base);
    if dot == -1 then "" else base[dot..]
  }

  function RemoveExtension(p: string): string {
    if Extension(p) == "" then p else
    var dot := ExtensionPosition(p);
    if dot == -1 then p else p[..dot]
  }

  /** A directory prefix only shifts the last dot. */
  lemma LastIndexInPrefix(d: string, b: string, c: char)
    ensures LastIndex(d + b, c) == if c in b then |d| + LastIndex(b, c) else LastIndex(d, c)
  {
    var k := LastIndex(b, c);
    assert forall i | |d| <= i < |d + b| :: (d + b)[i] == b[i - |d|];
    if c in b {
      var i :| 0 <= i < |b| && b[i] == c;
      LastIndexIs(d + b, c, |d| + k);
    } else {
      LastIndexIs(d + b, c, LastIndex(d, c));
    }
  }

  /** The dot found in the whole path and the one found in the base name are the same,
      whatever dots the directory has. */
  lemma ExtensionInPrefix(d: string, b: string)
    requires EndsInSeparator(d) && '/' !in b && ExtensionPosition(b) != -1
    ensures ExtensionPosition(d + b) == |d| + ExtensionPosition(b)
  {
    hide LastIndex, IsDoubleExtension;
    var p := d + b;
    assert p[|d| - 1] == '/' && p != "." && p != "..";
    LastIndexInPrefix(d, b, '.');
    var last := LastIndex(b, '.');
    assert p[..|d| + last] == d + b[..last] && p[|d| + last + 1..] == b[last + 1..];
    LastIndexInPrefix(d, b[..last], '.');
    LastIndexInPrefix(d, b[..last], '/');
    LastIndexOfStem(d);
    assert '/' !in b[..last];
    NoIndex(b[..last], '/');
  }

  lemma LastIndexOfStem(d: string)
    requires EndsInSeparator(d)
    ensures LastIndex(d, '/') == |d| - 1 && LastIndex(d, '.') < |d| - 1
  {
  }

  lemma NoIndex(s: string, c: char)
    requires c !in s
    ensures LastIndex(s, c) == -1
  {
  }

  lemma ExtensionAt(d: string, b: string)
    requires d == "" || (EndsInSeparator(d) && '/' !in b && ExtensionPosition(b) != -1)
    ensures ExtensionPosition(d + b) == |d| + ExtensionPosition(b)
  {
    if d == "" {
      assert d + b == b;
    } else {
      ExtensionInPrefix(d, b);
    }
  }

  lemma Rejoin(d: string, b: string, dot: nat)
    requires dot <= |b|
    ensures (d + b)[..|d| + dot] + b[dot..] == d + b
  {
  }

  lemma ExtensionSplitsStripped(p: string)
    requires Strip(p) == p && Extension(p) != ""
    ensures RemoveExtension(p) + Extension(p) == p
  {
    hide Strip, ExtensionPosition, BaseName, EndsInSeparator;
    var b := BaseName(p);
    ExtensionHasNoSeparator(p);
    PathSplits(p);
    var d := p[..|p| - |b|];
    var dot := ExtensionPosition(b);
    ExtensionAt(d, b);
    Rejoin(d, b, dot);
  }

  lemma ExtensionNeedsStripped(p: string)
    requires RemoveExtension(p) + Extension(p) == p && Extension(p) != ""
    ensures Strip(p) == p
  {
    ExtensionHasNoSeparator(p);
    hide Extension, RemoveExtension, ExtensionPosition;
    assert p[|p| - 1] == Extension(p)[|Extension(p)| - 1];
    assert !EndsInSeparator(p);
  }

  /** Cutting off the extension and putting it back gives the path, exactly when there
      is no extension or the path has no separators to strip. */
  lemma ExtensionSplits(p: string)
    ensures RemoveExtension(p) + Extension(p) == p <==> Extension(p) == "" || Strip(p) == p
  {
    hide Extension, ExtensionPosition, Strip;
    if Extension(p) == "" {
      assert p + "" == p;
    } else if Strip(p) == p {
      ExtensionSplitsStripped(p);
    } else if RemoveExtension(p) + Extension(p) == p {
      ExtensionNeedsStripped(p);
    }
  }

  lemma ExtensionHasNoSeparator(p: string)
    requires Extension(p) != ""
    ensures '/' !in BaseName(p) && !EndsInSeparator(Extension(p))
  {
    hide BaseName, Strip, AllSeparators;
    var s := Strip(p);
    StripTwice(p);
    DirNameIgnoresTrailing(p);
    BaseHasDot(p);
    RootsAreComponents();
    EmptyParts();
    BaseOfStripped(s);
    var base := BaseName(p);
    hide ExtensionPosition;
    assert Extension(p)[|Extension(p)| - 1] == base[|base| - 1];
  }

  lemma PathSplits(p: string)
    ensures |BaseName(p)| <= |Strip(p)|
    ensures var d := Strip(p)[..|Strip(p)| - |BaseName(p)|];
            Strip(p) == d + BaseName(p) && (d != "" ==> EndsInSeparator(d))
  {
    hide BaseName, Strip;
    StripTwice(p);
    DirNameIgnoresTrailing(p);
    BaseSplits(Strip(p));
  }

  lemma EmptyParts()
    ensures Strip("") == "" && BaseName("") == ""
  {
  }

  lemma BaseHasDot(p: string)
    requires Extension(p) != ""
    ensures BaseName(p) != "" && BaseName(p) != "/" && BaseName(p) != "//"
  {
    hide BaseName;
    var dot := ExtensionPosition(BaseName(p));
    assert BaseName(p)[dot] == '.';
    assert "/"[0] == '/' && "//"[0] == '/' && "//"[1] == '/';
  }

  lemma BaseSplits(s: string)
    requires Strip(s) == s
    ensures |BaseName(s)| <= |s|
    ensures var d := s[..|s| - |BaseName(s)|];
            s == d + BaseName(s) && (d != "" ==> EndsInSeparator(d))
  {
    var k := LastIndex(s, '/');
    if k != -1 {
      assert s == s[..k + 1] + s[k + 1..];
    }
  }
}
