/** Dot-bounded suffixes of names, and the zone name as their greatest common one. */
module ZoneNames {
  import opened Options

  function EndsWith(s: string, t: string): bool {
    |t| <= |s| && s[|s| - |t|..] == t
  }

  /** name_in_suffix: name is zone or a dot-bounded sub-name of it; every name is in the empty zone. */
  predicate NameInSuffix(name: string, zone: string) {
    zone == "" || SubName(name, zone)
  }

  predicate SubName(name: string, zone: string) {
    name == zone || (|name| > |zone| && EndsWith(name, zone) && name[|name| - |zone| - 1] == '.')
  }

  // ------------------------------------------------------------------------------ labels

  /** The position of the last dot, or -1. */
  function LastDot(s: string): (i: int)
    ensures -1 <= i < |s|
  {
    if s == "" || s[|s| - 1] == '.' then |s| - 1 else LastDot(s[..|s| - 1])
  }

  predicate NoDot(l: string) {
    forall j :: 0 <= j < |l| ==> l[j] != '.'
  }

  /** No dot behind the last dot. */
  predicate DotFreeFrom(s: string, i: int) {
    forall j :: i <= j < |s| && 0 <= j ==> s[j] != '.'
  }

  lemma {:induction false} LastDotSpec(s: string)
    ensures LastDot(s) >= 0 ==> s[LastDot(s)] == '.'
    ensures DotFreeFrom(s, LastDot(s) + 1)
  {
    hide LastDot;
    LastDotUnfold(s);
    if s != "" && s[|s| - 1] != '.' {
      LastDotSpec(s[..|s| - 1]);
      DotFreeMore(s, LastDot(s) + 1);
    }
  }

  lemma DotFreeMore(s: string, i: int)
    requires s != "" && s[|s| - 1] != '.' && DotFreeFrom(s[..|s| - 1], i)
    ensures DotFreeFrom(s, i)
  {
    var init := s[..|s| - 1];
    forall j | i <= j < |s| && 0 <= j
      ensures s[j] != '.'
    {
      if j < |s| - 1 {
        assert init[j] == s[j];
      }
    }
  }

  lemma DotFreeSuffix(s: string, i: int)
    requires 0 <= i <= |s| && DotFreeFrom(s, i)
    ensures NoDot(s[i..])
  {
    var l := s[i..];
    forall j | 0 <= j < |l|
      ensures l[j] != '.'
    {
      assert l[j] == s[i + j];
    }
  }

  lemma LastDotUnfold(s: string)
    ensures s != "" && s[|s| - 1] != '.' ==> LastDot(s) == LastDot(s[..|s| - 1])
    ensures !(s != "" && s[|s| - 1] != '.') ==> LastDot(s) == |s| - 1
  {
  }

  function Label(s: string): string {
    s[LastDot(s) + 1..]
  }

  function Rest(s: string): string
    requires LastDot(s) >= 0
  {
    s[..LastDot(s)]
  }

  /** A name is its last label, behind a dot and the rest where there is a dot. */
  lemma Parts(s: string)
    ensures NoDot(Label(s))
    ensures LastDot(s) >= 0 ==> s == Rest(s) + "." + Label(s) && |Rest(s)| < |s|
    ensures LastDot(s) < 0 ==> s == Label(s)
  {
    hide LastDot, DotFreeFrom, NoDot;
    LastDotSpec(s);
    var i := LastDot(s);
    DotFreeSuffix(s, i + 1);
    if i >= 0 {
      assert s == s[..i] + [s[i]] + s[i + 1..];
    }
  }

  /** The labels of a name from right to left, as rsplit yields them. */
  function Labels(s: string): (l: seq<string>)
    ensures |l| > 0
    decreases |s|
  {
    [Label(s)] + if LastDot(s) >= 0 then Labels(Rest(s)) else []
  }

  /** Labels from right to left put back together. */
  function Unlabel(l: seq<string>): string {
    if l == [] then "" else if |l| == 1 then l[0] else Unlabel(l[1..]) + "." + l[0]
  }

  predicate DotFree(l: seq<string>) {
    forall i :: 0 <= i < |l| ==> NoDot(l[i])
  }

  lemma {:induction false} LastDotUnique(x: string, l: string)
    requires NoDot(l)
    ensures LastDot(x + "." + l) == |x| && LastDot(l) == -1
    decreases |l|
  {
    var s := x + "." + l;
    if l == "" {
      assert s[|s| - 1] == '.';
    } else {
      var n := |l| - 1;
      assert s[..|s| - 1] == x + "." + l[..n] && s[|s| - 1] == l[n];
      LastDotUnique(x, l[..n]);
    }
  }

  lemma SplitLast(x: string, l: string)
    requires NoDot(l)
    ensures LastDot(x + "." + l) == |x| && Label(x + "." + l) == l && Rest(x + "." + l) == x
  {
    LastDotUnique(x, l);
    hide LastDot, NoDot;
    var s := x + "." + l;
    assert s[|x| + 1..] == l && s[..|x|] == x;
  }

  lemma Undotted(l: string)
    requires NoDot(l)
    ensures LastDot(l) == -1 && Label(l) == l && Labels(l) == [l]
  {
    hide LastDot, NoDot, Labels;
    LastDotUnique("", l);
    WholeLabel(l);
    LabelsOf(l);
  }

  lemma WholeLabel(l: string)
    requires LastDot(l) == -1
    ensures Label(l) == l
  {
    hide LastDot;
  }

  lemma SubNameSplit(name: string, zone: string) returns (x: string)
    requires SubName(name, zone) && name != zone
    ensures name == x + "." + zone
  {
    x := name[..|name| - |zone| - 1];
    assert name == x + [name[|name| - |zone| - 1]] + name[|name| - |zone|..];
  }

  lemma SubNameBuild(x: string, zone: string)
    ensures SubName(x + "." + zone, zone)
  {
    var s := x + "." + zone;
    assert s[|s| - |zone|..] == zone;
  }

  lemma PrefixCons(a: string, x: seq<string>, b: string, y: seq<string>)
    ensures Prefix([a] + x, [b] + y) <==> a == b && Prefix(x, y)
  {
    if Prefix([a] + x, [b] + y) {
      assert ([a] + x)[0] == ([b] + y)[0];
      assert x == ([a] + x)[1..] == ([b] + y)[..|x| + 1][1..] == y[..|x|];
    }
  }

  lemma Regroup(x: string, r: string, l: string)
    ensures (x + "." + r) + "." + l == x + "." + (r + "." + l)
  {
  }

  lemma {:induction false} LabelsRoundTrip(s: string)
    ensures Unlabel(Labels(s)) == s && DotFree(Labels(s))
    decreases |s|
  {
    hide LastDot, NoDot, Label, Rest, Labels;
    Parts(s);
    LabelsOf(s);
    if LastDot(s) >= 0 {
      LabelsRoundTrip(Rest(s));
      assert Labels(s)[1..] == Labels(Rest(s));
    }
  }

  lemma {:induction false} UnlabelRoundTrip(l: seq<string>)
    requires l != [] && DotFree(l)
    ensures Labels(Unlabel(l)) == l
  {
    hide LastDot, NoDot;
    if |l| == 1 {
      Undotted(l[0]);
    } else {
      UnlabelRoundTrip(l[1..]);
      SplitLast(Unlabel(l[1..]), l[0]);
    }
  }

  predicate Prefix(x: seq<string>, y: seq<string>) {
    |x| <= |y| && x == y[..|x|]
  }

  /** Being a sub-name is having the zone's labels on the right. */
  lemma {:induction false} SubNameIsPrefix(name: string, zone: string)
    ensures SubName(name, zone) <==> Prefix(Labels(zone), Labels(name))
    decreases |zone|
  {
    hide LastDot, Labels, SubName, Prefix;
    if LastDot(zone) < 0 {
      SubNameOfLabel(name, zone);
    } else {
      if LastDot(name) >= 0 {
        SubNameIsPrefix(Rest(name), Rest(zone));
      }
      SubNameOfRest(name, zone);
      PrefixOfRest(name, zone);
    }
  }

  lemma SubNameOfLabel(name: string, zone: string)
    requires LastDot(zone) < 0
    ensures SubName(name, zone) <==> Label(name) == zone
    ensures Prefix(Labels(zone), Labels(name)) <==> Label(name) == zone
  {
    hide LastDot, SubName, Prefix, Label, NoDot;
    Parts(zone);
    Undotted(zone);
    Parts(name);
    LabelsOf(name);
    PrefixCons(zone, [], Label(name), if LastDot(name) >= 0 then Labels(Rest(name)) else []);
    PrefixEmpty(if LastDot(name) >= 0 then Labels(Rest(name)) else []);
    if name == zone {
      SubNameItself(name);
    } else if SubName(name, zone) {
      var x := SubNameSplit(name, zone);
      SplitLast(x, zone);
    } else if LastDot(name) >= 0 {
      SubNameBuild(Rest(name), Label(name));
    }
  }

  lemma PrefixEmpty(y: seq<string>)
    ensures Prefix([], y)
  {
  }

  lemma LabelsOf(s: string)
    ensures Labels(s) == [Label(s)] + if LastDot(s) >= 0 then Labels(Rest(s)) else []
  {
  }

  lemma SubNameItself(name: string)
    ensures SubName(name, name)
  {
  }

  lemma SubNameOfRest(name: string, zone: string)
    requires LastDot(zone) >= 0
    ensures SubName(name, zone)
            <==> LastDot(name) >= 0 && Label(name) == Label(zone) && SubName(Rest(name), Rest(zone))
  {
    hide LastDot, SubName, NoDot, Label, Rest;
    var l, r := Label(zone), Rest(zone);
    Parts(zone);
    Parts(name);
    if name == zone {
      SubNameItself(name);
      SubNameItself(r);
    } else if SubName(name, zone) {
      var x := SubNameSplit(name, zone);
      Regroup(x, r, l);
      SplitLast(x + "." + r, l);
      SubNameBuild(x, r);
    } else if LastDot(name) >= 0 && Label(name) == l && SubName(Rest(name), r) {
      if Rest(name) != r {
        var x := SubNameSplit(Rest(name), r);
        Regroup(x, r, l);
        SubNameBuild(x, zone);
      }
    }
  }

  lemma PrefixOfRest(name: string, zone: string)
    requires LastDot(zone) >= 0
    ensures Prefix(Labels(zone), Labels(name))
            <==> LastDot(name) >= 0 && Label(name) == Label(zone) && Prefix(Labels(Rest(zone)), Labels(Rest(name)))
  {
    hide LastDot, Label, Rest, Labels, Prefix;
    LabelsOf(zone);
    LabelsOf(name);
    PrefixCons(Label(zone), Labels(Rest(zone)), Label(name), if LastDot(name) >= 0 then Labels(Rest(name)) else []);
    NotPrefixOfEmpty(Labels(Rest(zone)));
  }

  lemma NotPrefixOfEmpty(x: seq<string>)
    ensures Prefix(x, []) ==> x == []
  {
  }

  // ------------------------------------------------------------------------------- order

  lemma InSuffixReflexive(x: string)
    ensures NameInSuffix(x, x)
  {
  }

  lemma InSuffixTransitive(x: string, y: string, z: string)
    requires NameInSuffix(x, y) && NameInSuffix(y, z)
    ensures NameInSuffix(x, z)
  {
    SubNameIsPrefix(x, y);
    SubNameIsPrefix(y, z);
    SubNameIsPrefix(x, z);
    OnlyEmptyInEmpty(z);
    hide LastDot, Labels, SubName;
    var a, b, c := Labels(x), Labels(y), Labels(z);
    if z != "" && y != "" {
      assert a[..|b|][..|c|] == a[..|c|];
    }
  }

  lemma OnlyEmptyInEmpty(z: string)
    ensures SubName("", z) ==> z == ""
  {
  }

  lemma InSuffixAntisymmetric(x: string, y: string)
    requires NameInSuffix(x, y) && NameInSuffix(y, x)
    ensures x == y
  {
  }

  // ----------------------------------------------------------------------- common suffix

  function CommonPrefix(x: seq<string>, y: seq<string>): (p: seq<string>)
    ensures Prefix(p, x) && Prefix(p, y)
    ensures |p| < |x| && |p| < |y| ==> x[|p|] != y[|p|]
  {
    if x == [] || y == [] || x[0] != y[0] then [] else [x[0]] + CommonPrefix(x[1..], y[1..])
  }

  function Reversed(l: seq<string>): (r: seq<string>)
    ensures |r| == |l|
  {
    if l == [] then [] else Reversed(l[1..]) + [l[0]]
  }

  function Join(l: seq<string>): string {
    if l == [] then "" else if |l| == 1 then l[0] else l[0] + "." + Join(l[1..])
  }

  lemma {:induction false} JoinLast(l: seq<string>, x: string)
    requires l != []
    ensures Join(l + [x]) == Join(l) + "." + x
  {
    if |l| > 1 {
      JoinLast(l[1..], x);
      assert (l + [x])[1..] == l[1..] + [x];
    } else {
      assert (l + [x])[1..] == [x];
    }
  }

  lemma {:induction false} JoinReversed(l: seq<string>)
    ensures Join(Reversed(l)) == Unlabel(l)
  {
    if |l| > 1 {
      JoinReversed(l[1..]);
      JoinLast(Reversed(l[1..]), l[0]);
    } else if |l| == 1 {
      assert Reversed(l[1..]) == [];
    }
  }

  function CommonSuffix(a: string, b: string): string {
    Unlabel(CommonPrefix(Labels(a), Labels(b)))
  }

  /** common_suffix_str: walks the labels of both names from the right while they agree. */
  method CommonSuffixStr(a: string, b: string) returns (r: string)
    ensures r == CommonSuffix(a, b)
  {
    hide LastDot, Labels, Unlabel, Join, Reversed;
    var shared: seq<string> := [];
    var x, y := Labels(a), Labels(b);
    while x != [] && y != [] && x[0] == y[0]
      invariant shared + CommonPrefix(x, y) == CommonPrefix(Labels(a), Labels(b))
      decreases |x|
    {
      shared := shared + [x[0]];
      x, y := x[1..], y[1..];
    }
    assert CommonPrefix(x, y) == [];
    assert shared + [] == shared;
    JoinReversed(shared);
    r := Join(Reversed(shared));
  }

  /** The common suffix is the greatest one: both names lie in it, and it lies in every suffix of both. */
  lemma CommonSuffixIsMeet(a: string, b: string, z: string)
    ensures NameInSuffix(a, CommonSuffix(a, b)) && NameInSuffix(b, CommonSuffix(a, b))
    ensures NameInSuffix(a, z) && NameInSuffix(b, z) ==> NameInSuffix(CommonSuffix(a, b), z)
  {
    var p := CommonPrefix(Labels(a), Labels(b));
    var c := CommonSuffix(a, b);
    LabelsRoundTrip(a);
    EmptyUnlabel();
    SubNameIsPrefix(a, c);
    SubNameIsPrefix(b, c);
    SubNameIsPrefix(a, z);
    SubNameIsPrefix(b, z);
    SubNameIsPrefix(c, z);
    hide LastDot, Labels, SubName, Unlabel;
    if p != [] {
      UnlabelRoundTrip(p);
    }
    if z != "" && NameInSuffix(a, z) && NameInSuffix(b, z) {
      LongestPrefix(Labels(z), Labels(a), Labels(b));
    }
  }

  lemma EmptyUnlabel()
    ensures Unlabel([]) == ""
  {
  }

  lemma {:induction false} LongestPrefix(z: seq<string>, x: seq<string>, y: seq<string>)
    requires Prefix(z, x) && Prefix(z, y)
    ensures Prefix(z, CommonPrefix(x, y))
  {
    if z != [] {
      assert z[0] == x[0] && z[0] == y[0];
      assert z[1..] == x[1..][..|z| - 1] && z[1..] == y[1..][..|z| - 1];
      LongestPrefix(z[1..], x[1..], y[1..]);
      assert z == [z[0]] + z[1..];
      PrefixCons(z[0], z[1..], x[0], CommonPrefix(x[1..], y[1..]));
    }
  }

  // --------------------------------------------------------------------------- zone name

  /** z is the longest dot-bounded suffix that all the names share. */
  ghost predicate Longest(z: string, names: set<string>) {
    && (forall n :: n in names ==> NameInSuffix(n, z))
    && forall y :: (forall n :: n in names ==> NameInSuffix(n, y)) ==> NameInSuffix(z, y)
  }

  /** There is only one, so it does not depend on the order in which names are met. */
  lemma LongestUnique(x: string, y: string, names: set<string>)
    requires Longest(x, names) && Longest(y, names)
    ensures x == y
  {
    InSuffixAntisymmetric(x, y);
  }

  /** The running suffix of the parser. */
  function NextSuffix(suffix: Option<string>, name: string): Option<string> {
    match suffix
    case None => Some(name)
    case Some(current) => if NameInSuffix(name, current) then suffix else Some(CommonSuffix(current, name))
  }

  /** The suffix kept by the parser is the longest one of all names so far. */
  ghost predicate Tracks(suffix: Option<string>, names: set<string>) {
    match suffix
    case None => names == {}
    case Some(z) => names != {} && Longest(z, names)
  }

  lemma NextSuffixTracks(suffix: Option<string>, name: string, names: set<string>)
    requires Tracks(suffix, names)
    ensures Tracks(NextSuffix(suffix, name), names + {name})
  {
    hide NameInSuffix, CommonSuffix;
    match suffix {
      case None =>
        InSuffixReflexive(name);
      case Some(current) =>
        var next := NextSuffix(suffix, name).value;
        NextIsMeet(current, name);
        forall n | n in names + {name}
          ensures NameInSuffix(n, next)
        {
          if n in names {
            InSuffixTransitive(n, current, next);
          }
        }
        forall y | forall n :: n in names + {name} ==> NameInSuffix(n, y)
          ensures NameInSuffix(next, y)
        {
          assert NameInSuffix(name, y);
          assert NameInSuffix(current, y);
          MeetBelow(current, name, y);
        }
    }
  }

  lemma NextIsMeet(current: string, name: string)
    ensures var next := NextSuffix(Some(current), name);
            next.Some? && NameInSuffix(current, next.value) && NameInSuffix(name, next.value)
  {
    hide NameInSuffix, CommonSuffix;
    CommonSuffixIsMeet(current, name, "");
    InSuffixReflexive(current);
  }

  lemma MeetBelow(current: string, name: string, y: string)
    ensures NameInSuffix(current, y) && NameInSuffix(name, y) ==>
              NextSuffix(Some(current), name).Some? && NameInSuffix(NextSuffix(Some(current), name).value, y)
  {
    hide NameInSuffix, CommonSuffix;
    CommonSuffixIsMeet(current, name, y);
  }
}
