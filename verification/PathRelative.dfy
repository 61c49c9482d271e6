/** What a relative path leads to: appending it to the parent gives the child again. */
module PathRelative {
  import opened PathAlgebra

  /** Appending components one after the other. */
  function AppendEach(p: string, components: seq<string>): string
    decreases |components|
  {
    if components == [] then p else AppendEach(Append(p, components[0]), components[1..])
  }

  /** Nothing comes in front of what is appended to the empty path or the current
      directory. */
  lemma AppendToNothing(c: string)
    ensures Append("", c) == c && Append(".", c) == c
  {
    assert Strip("") == "" && "" + c == c;
  }

  predicate IsName(c: string) {
    c != "" && '/' !in c
  }

  /** An appended name is one more component. */
  lemma AppendedName(p: string, c: string)
    requires p != "" && Strip(p) != "." && IsName(c)
    ensures Append(p, c) != "" && Strip(Append(p, c)) != "."
    ensures Components(Append(p, c)) == Components(p) + [c]
  {
    StripTwice(p);
    ComponentsIgnoreTrailing(p);
    DotParts();
    NameAppended(Strip(p), c);
    hide Strip, Components;
    assert Append(p, c) == Stem(Strip(p)) + c;
  }

  lemma NameAppended(s: string, c: string)
    requires s != "" && Strip(s) == s && IsName(c)
    ensures Strip(Stem(s) + c) == Stem(s) + c != "."
    ensures Components(Stem(s) + c) == Components(s) + [c]
  {
    hide Strip, DirName, BaseName, LastIndex, Root;
    assert c[0] in c && !EndsInSeparator(c) by {
      assert c[|c| - 1] in c;
    }
    DropSeparatorsIs(c, c);
    StripAppended(s, c);
    DirNameAppendedName(s, c);
    DirNameIsStripped(Stem(s) + c);
    assert !AllSeparators(c);
  }

  lemma {:induction false} EachAppended(p: string, names: seq<string>)
    requires p != "" && Strip(p) != "." && forall c | c in names :: IsName(c)
    ensures AppendEach(p, names) != "" && Components(AppendEach(p, names)) == Components(p) + names
    decreases |names|
  {
    hide Components, Append, Strip;
    if names != [] {
      AppendedName(p, names[0]);
      EachAppended(Append(p, names[0]), names[1..]);
      assert Components(p) + [names[0]] + names[1..] == Components(p) + names;
    } else {
      assert Components(p) + [] == Components(p);
    }
  }

  /** Every component but a root is a name. */
  lemma {:induction false} ComponentsAreNames(p: string)
    requires p != ""
    ensures forall i | 1 <= i < |Components(p)| :: IsName(Components(p)[i])
    decreases |p|, if p == "." then 0 else 1
  {
    hide Strip, BaseName, LastIndex, AllSeparators;
    if DirName(p) != p {
      DirNameShrinks(p);
      DirNameIsStripped(p);
      ComponentsAreNames(DirName(p));
      if !AllSeparators(BaseName(p)) {
        BaseIsName(p);
      }
    }
  }

  lemma BaseIsName(p: string)
    requires p != "" && !AllSeparators(BaseName(p))
    ensures IsName(BaseName(p))
  {
    StripTwice(p);
    DirNameIgnoresTrailing(p);
    RootsAreComponents();
    hide BaseName, Strip;
    var s := Strip(p);
    assert s != "" && AllSeparators("//") by {
      StripKeepsSome(p);
    }
    BaseOfStripped(s);
  }

  lemma StripKeepsSome(p: string)
    requires p != ""
    ensures Strip(p) != ""
  {
  }

  /** What leads from a strict parent to a child, appended to the parent, gives a path
      with the child's components, exactly when the parent is not the current directory
      with separators behind: there the leading "." is lost. */
  lemma RelativeLeadsBack(p: string, child: string)
    requires p != "" && child != "" && IsStrictPrefix(Components(p), Components(child))
    ensures var end := AppendEach(p, Components(child)[|Components(p)|..]);
            && end != ""
            && (Strip(p) == "." ==> Components(end) == Components(child)[1..])
            && (Components(end) == Components(child) <==> Strip(p) != ".")
  {
    hide Strip, Components, Append;
    var (mine, theirs) := (Components(p), Components(child));
    var names := theirs[|mine|..];
    ComponentsAreNames(child);
    assert forall c | c in names :: IsName(c) by {
      assert forall i | 0 <= i < |names| :: names[i] == theirs[|mine| + i];
    }
    if Strip(p) == "." {
      DotSlashComponents(p);
      FirstAfterDot(p, names[0]);
      EachAppended(Append(p, names[0]), names[1..]);
      assert [names[0]] + names[1..] == names;
    } else {
      EachAppended(p, names);
      assert mine + names == theirs;
    }
  }

  lemma FirstAfterDot(p: string, c: string)
    requires p != "." && Strip(p) == "." && IsName(c)
    ensures Append(p, c) != "" && Strip(Append(p, c)) != "." && Components(Append(p, c)) == [c]
  {
    DotParts();
    assert Components(".") == [];
    NameAppended(".", c);
    hide Strip, Components;
    assert Append(p, c) == Stem(".") + c;
  }
}
