/** The text form of a zone: parsing it line by line and printing it back. */
module ZoneText {
  import opened Options
  import opened Addresses
  import opened ZoneNames

  // ---------------------------------------------------------------------- characters

  predicate AsciiSpace(c: char) {
    c == ' ' || c == '\t' || c == '\n' || c == '\r' || c == '\U{C}'
  }

  /** White space that trim removes; it includes characters that do not separate fields. */
  predicate Space(c: char) {
    AsciiSpace(c) || c == '\U{B}' || c == '\U{85}' || c == '\U{A0}' || c == '\U{1680}'
    || '\U{2000}' <= c <= '\U{200A}' || c == '\U{2028}' || c == '\U{2029}' || c == '\U{202F}' || c == '\U{205F}'
    || c == '\U{3000}'
  }

  function LowerChar(c: char): char {
    if 'A' <= c <= 'Z' then (c as int + 32) as char else c
  }

  function Lower(s: string): (r: string)
    ensures |r| == |s|
  {
    seq(|s|, i requires 0 <= i < |s| => LowerChar(s[i]))
  }

  function TrimStart(s: string): string {
    if s != "" && Space(s[0]) then TrimStart(s[1..]) else s
  }

  function TrimEnd(s: string): string {
    if s != "" && Space(s[|s| - 1]) then TrimEnd(s[..|s| - 1]) else s
  }

  function Trim(s: string): string {
    TrimEnd(TrimStart(s))
  }

  function TrimDots(s: string): string {
    if s != "" && s[|s| - 1] == '.' then TrimDots(s[..|s| - 1]) else s
  }

  /** canonical: no trailing dots, ASCII lower case. */
  function Canonical(s: string): string {
    Lower(TrimDots(s))
  }

  /** A run of characters that split_ascii_whitespace keeps together. */
  predicate Solid(s: string) {
    forall i :: 0 <= i < |s| ==> !AsciiSpace(s[i])
  }

  function TokenLength(s: string): (n: nat)
    ensures n <= |s|
  {
    if s == "" || AsciiSpace(s[0]) then 0 else 1 + TokenLength(s[1..])
  }

  /** The fields of a line. */
  function Tokens(s: string): (t: seq<string>)
    decreases |s|
  {
    if s == "" then []
    else if AsciiSpace(s[0]) then Tokens(s[1..])
    else
      var n := TokenLength(s);
      [s[..n]] + Tokens(s[n..])
  }

  lemma {:induction false} TokenLengthOf(t: string, rest: string)
    requires Solid(t) && (rest == "" || AsciiSpace(rest[0]))
    ensures TokenLength(t + rest) == |t|
  {
    if t != "" {
      assert (t + rest)[1..] == t[1..] + rest && (t + rest)[0] == t[0];
      TokenLengthOf(t[1..], rest);
    } else {
      assert t + rest == rest;
    }
  }

  lemma NextToken(t: string, rest: string)
    requires Solid(t) && t != ""
    ensures Tokens(t + "\t" + rest) == [t] + Tokens(rest)
    ensures Tokens(t) == [t]
  {
    hide TokenLength, Solid;
    TokenLengthOf(t, "\t" + rest);
    TokenLengthOf(t, "");
    assert t + "" == t;
    var s := t + "\t" + rest;
    assert s == t + ("\t" + rest) && s[0] == t[0];
    assert s[..|t|] == t && s[|t|..] == "\t" + rest;
    assert ("\t" + rest)[1..] == rest;
    SolidStart(t);
  }

  lemma SolidStart(t: string)
    requires Solid(t) && t != ""
    ensures !AsciiSpace(t[0])
  {
  }

  lemma {:induction false} TokensSolid(s: string)
    ensures forall i :: 0 <= i < |Tokens(s)| ==> Tokens(s)[i] != "" && Solid(Tokens(s)[i])
    ensures s != "" && !AsciiSpace(s[0]) ==> |Tokens(s)| > 0 && Tokens(s)[0][0] == s[0]
    decreases |s|
  {
    if s != "" {
      if AsciiSpace(s[0]) {
        TokensSolid(s[1..]);
      } else {
        var n := TokenLength(s);
        TokenSolid(s);
        TokensSolid(s[n..]);
      }
    }
  }

  lemma {:induction false} TokenSolid(s: string)
    ensures Solid(s[..TokenLength(s)])
  {
    if s != "" && !AsciiSpace(s[0]) {
      TokenSolid(s[1..]);
      var n := TokenLength(s[1..]);
      assert s[..n + 1] == [s[0]] + s[1..][..n];
    }
  }

  // ------------------------------------------------------------------------- one line

  /** How addresses are written and read. */
  datatype Codec = Codec(print4: Ip4 -> string, parse4: string -> Option<Ip4>,
                         print6: Ip6 -> string, parse6: string -> Option<Ip6>)
  {
    /** The parser inverts the printer, and only yields proper addresses. */
    ghost predicate Valid() {
      && (forall ip: Ip4 :: ip.Valid() ==> parse4(print4(ip)) == Some(ip) && Printable(print4(ip)))
      && (forall ip: Ip6 :: ip.Valid() ==> parse6(print6(ip)) == Some(ip) && Printable(print6(ip)))
      && (forall s :: parse4(s).Some? ==> parse4(s).value.Valid())
      && (forall s :: parse6(s).Some? ==> parse6(s).value.Valid())
    }
  }

  predicate Printable(s: string) {
    s != "" && forall i :: 0 <= i < |s| ==> !Space(s[i])
  }

  datatype Item = ItemA(ip4: Ip4) | ItemAaaa(ip6: Ip6) | ItemNs(host: string)

  /** What one line says: nothing, a name whose data cannot be read, or a record. */
  datatype LineResult = Skip | Bad(name: string) | Keep(name: string, item: Item)

  predicate IsTtl(tok: string) {
    tok != "" && forall i :: 0 <= i < |tok| ==> '0' <= tok[i] <= '9'
  }

  predicate IsClass(tok: string) {
    Lower(tok) == "in" || Lower(tok) == "cs" || Lower(tok) == "ch" || Lower(tok) == "hs"
  }

  function SkipTtlAndClass(fields: seq<string>): seq<string> {
    if fields != [] && (IsTtl(fields[0]) || IsClass(fields[0])) then SkipTtlAndClass(fields[1..]) else fields
  }

  function ParseLine(codec: Codec, raw: string): LineResult {
    var line := Trim(raw);
    if line == "" || line[0] == ';' then Skip else ParseFields(codec, Tokens(line))
  }

  function ParseFields(codec: Codec, fields: seq<string>): LineResult {
    if fields == [] then Skip
    else
      var rest := SkipTtlAndClass(fields[1..]);
      if |rest| < 2 then Skip
      else
        var rtype, rdata, name := Lower(rest[0]), rest[1], Canonical(fields[0]);
        if rtype == "a" then
          var ip := codec.parse4(rdata);
          if ip.None? then Bad(name) else Keep(name, ItemA(ip.value))
        else if rtype == "aaaa" then
          var ip := codec.parse6(rdata);
          if ip.None? then Bad(name) else Keep(name, ItemAaaa(ip.value))
        else if rtype == "ns" then Keep(name, ItemNs(Canonical(rdata)))
        else Skip
  }

  function RtypeOf(item: Item): string {
    match item
    case ItemA(_) => "a"
    case ItemAaaa(_) => "aaaa"
    case ItemNs(_) => "ns"
  }

  function RdataOf(codec: Codec, item: Item): string {
    match item
    case ItemA(ip) => codec.print4(ip)
    case ItemAaaa(ip) => codec.print6(ip)
    case ItemNs(host) => host + "."
  }

  /** The line that serialize writes for a record. */
  function LineOf(codec: Codec, name: string, item: Item): string {
    name + "." + "\t" + ("3600" + "\t" + ("in" + "\t" + (RtypeOf(item) + "\t" + RdataOf(codec, item))))
  }

  /** A canonical host name without white space between its fields. */
  predicate CanonicalHost(s: string) {
    Solid(s) && Lower(s) == s && (s != "" ==> s[|s| - 1] != '.')
  }

  /** A name that a line can start with. */
  predicate CanonicalName(s: string) {
    CanonicalHost(s) && (s != "" ==> s[0] != ';' && !Space(s[0]))
  }

  predicate CanonicalItem(item: Item) {
    match item
    case ItemA(ip) => ip.Valid()
    case ItemAaaa(ip) => ip.Valid()
    case ItemNs(host) => CanonicalHost(host)
  }

  lemma CanonicalDot(s: string)
    requires CanonicalHost(s)
    ensures Canonical(s + ".") == s
  {
    assert (s + ".")[..|s|] == s;
    assert TrimDots(s + ".") == TrimDots(s);
  }

  lemma NotTrimmed(s: string)
    requires s != "" && !Space(s[0]) && !Space(s[|s| - 1])
    ensures Trim(s) == s
  {
  }

  lemma RdataPrinted(codec: Codec, item: Item)
    requires codec.Valid() && CanonicalItem(item)
    ensures var d := RdataOf(codec, item); d != "" && Solid(d) && !Space(d[|d| - 1])
    ensures item.ItemA? ==> codec.parse4(RdataOf(codec, item)) == Some(item.ip4)
    ensures item.ItemAaaa? ==> codec.parse6(RdataOf(codec, item)) == Some(item.ip6)
    ensures item.ItemNs? ==> Canonical(RdataOf(codec, item)) == item.host
  {
    match item {
      case ItemA(ip) => assert Printable(codec.print4(ip));
      case ItemAaaa(ip) => assert Printable(codec.print6(ip));
      case ItemNs(host) => CanonicalDot(host);
    }
  }

  lemma FixedTokens()
    ensures Solid("3600") && Solid("in") && Solid("a") && Solid("aaaa") && Solid("ns")
    ensures IsTtl("3600") && IsClass("in")
    ensures !IsTtl("a") && !IsTtl("aaaa") && !IsTtl("ns") && !IsClass("a") && !IsClass("aaaa") && !IsClass("ns")
    ensures Lower("a") == "a" && Lower("aaaa") == "aaaa" && Lower("ns") == "ns"
  {
    assert Lower("in") == "in";
    assert Lower("a")[0] == 'a' && Lower("aaaa")[0] == 'a' && Lower("ns")[0] == 'n';
  }

  /** A printed line says exactly the record it was printed from. */
  lemma LineRoundTrip(codec: Codec, name: string, item: Item)
    requires codec.Valid() && CanonicalName(name) && CanonicalItem(item)
    ensures ParseLine(codec, LineOf(codec, name, item)) == Keep(name, item)
  {
    hide Solid, IsTtl, IsClass, Lower, Canonical, Space, Trim, Tokens, CanonicalHost;
    FixedTokens();
    RdataPrinted(codec, item);
    CanonicalDot(name);
    var rdata := RdataOf(codec, item);
    var t := RtypeOf(item);
    var line := LineOf(codec, name, item);
    LineEnds(codec, name, item);
    NotTrimmed(line);
    NameSolid(name);
    NextToken(name + ".", "3600" + "\t" + ("in" + "\t" + (t + "\t" + rdata)));
    NextToken("3600", "in" + "\t" + (t + "\t" + rdata));
    NextToken("in", t + "\t" + rdata);
    NextToken(t, rdata);
    NextToken(rdata, "");
    var fields := Tokens(line);
    assert fields == [name + ".", "3600", "in", t, rdata];
    FieldsSkip(fields);
    assert SkipTtlAndClass(fields[1..]) == [t, rdata];
  }

  lemma FieldsSkip(fields: seq<string>)
    requires |fields| == 5 && IsTtl(fields[1]) && IsClass(fields[2]) && !IsTtl(fields[3]) && !IsClass(fields[3])
    ensures SkipTtlAndClass(fields[1..]) == [fields[3], fields[4]]
  {
    hide IsTtl, IsClass;
    assert fields[1..][1..] == fields[2..] && fields[2..][1..] == fields[3..] && fields[3..] == [fields[3], fields[4]];
    assert SkipTtlAndClass(fields[3..]) == fields[3..];
    assert SkipTtlAndClass(fields[2..]) == fields[3..];
  }

  lemma NameSolid(name: string)
    requires CanonicalHost(name)
    ensures Solid(name + ".") && name + "." != ""
  {
  }

  lemma LineEnds(codec: Codec, name: string, item: Item)
    requires codec.Valid() && CanonicalName(name) && CanonicalItem(item)
    ensures var line := LineOf(codec, name, item);
            line != "" && line[0] != ';' && !Space(line[0]) && !Space(line[|line| - 1])
  {
    RdataPrinted(codec, item);
    var line := LineOf(codec, name, item);
    var d := RdataOf(codec, item);
    hide Space, Solid;
    NoSpaceDot();
    assert line[|line| - 1] == d[|d| - 1];
    assert line[0] == if name == "" then '.' else name[0];
  }

  lemma NoSpaceDot()
    ensures !Space('.')
  {
  }

  // ---------------------------------------------------------------- what lines can produce

  lemma LowerCharFacts(c: char)
    ensures LowerChar(LowerChar(c)) == LowerChar(c)
    ensures LowerChar(c) == '.' <==> c == '.'
    ensures LowerChar(c) == ';' <==> c == ';'
    ensures Space(LowerChar(c)) <==> Space(c)
    ensures AsciiSpace(LowerChar(c)) <==> AsciiSpace(c)
  {
  }

  lemma {:induction false} TrimDotsFacts(s: string)
    ensures var t := TrimDots(s); |t| <= |s| && t == s[..|t|] && (t != "" ==> t[|t| - 1] != '.')
  {
    if s != "" && s[|s| - 1] == '.' {
      TrimDotsFacts(s[..|s| - 1]);
    }
  }

  lemma CanonicalIsHost(s: string)
    requires Solid(s)
    ensures CanonicalHost(Canonical(s))
    ensures s != "" && s[0] != ';' && !Space(s[0]) ==> CanonicalName(Canonical(s))
  {
    hide AsciiSpace, Space, LowerChar;
    TrimDotsFacts(s);
    var t := TrimDots(s);
    forall i | 0 <= i < |t|
      ensures LowerChar(LowerChar(t[i])) == LowerChar(t[i]) && !AsciiSpace(LowerChar(t[i]))
      ensures LowerChar(t[i]) == '.' <==> t[i] == '.'
      ensures LowerChar(t[i]) == ';' <==> t[i] == ';'
      ensures Space(LowerChar(t[i])) <==> Space(t[i])
    {
      LowerCharFacts(t[i]);
      assert t[i] == s[i];
    }
    assert Lower(Lower(t)) == Lower(t);
  }

  lemma {:induction false} TrimStartFacts(s: string)
    ensures var t := TrimStart(s); t != "" ==> !Space(t[0])
  {
    if s != "" && Space(s[0]) {
      TrimStartFacts(s[1..]);
    }
  }

  lemma {:induction false} TrimEndFacts(s: string)
    ensures var t := TrimEnd(s); t != "" ==> s != "" && t[0] == s[0]
  {
    if s != "" && Space(s[|s| - 1]) {
      TrimEndFacts(s[..|s| - 1]);
    }
  }

  lemma TrimFacts(s: string)
    ensures Trim(s) != "" ==> !Space(Trim(s)[0])
  {
    TrimStartFacts(s);
    TrimEndFacts(TrimStart(s));
  }

  lemma {:induction false} SkipSolid(fields: seq<string>)
    requires forall i :: 0 <= i < |fields| ==> Solid(fields[i])
    ensures forall i :: 0 <= i < |SkipTtlAndClass(fields)| ==> Solid(SkipTtlAndClass(fields)[i])
  {
    hide IsTtl, IsClass, Solid;
    if fields != [] && (IsTtl(fields[0]) || IsClass(fields[0])) {
      SkipSolid(fields[1..]);
    }
  }

  /** Whatever the line, names and hosts taken from it are canonical, and the name can start a printed line. */
  lemma ParsedCanonical(codec: Codec, raw: string)
    requires codec.Valid()
    ensures ParseLine(codec, raw).Keep? ==>
              CanonicalName(ParseLine(codec, raw).name) && CanonicalItem(ParseLine(codec, raw).item)
  {
    hide Space, IsTtl, IsClass, Lower, Canonical, Tokens, CanonicalHost, CanonicalName, Solid, Trim;
    var line := Trim(raw);
    TrimFacts(raw);
    TokensSolid(line);
    if line != "" && line[0] != ';' {
      FirstNotSpace(line);
      var fields := Tokens(line);
      CanonicalIsHost(fields[0]);
      SkipSolid(fields[1..]);
      var rest := SkipTtlAndClass(fields[1..]);
      if |rest| >= 2 {
        CanonicalIsHost(rest[1]);
      }
    }
  }

  lemma FirstNotSpace(line: string)
    requires line != "" && !Space(line[0])
    ensures !AsciiSpace(line[0])
  {
  }

  // ------------------------------------------------------------------------- the records

  /** The records of one name, name servers by host name. */
  datatype Lists = Lists(a: seq<Ip4>, aaaa: seq<Ip6>, ns: seq<string>) {
    function Plus(item: Item): Lists {
      match item
      case ItemA(ip) => this.(a := a + [ip])
      case ItemAaaa(ip) => this.(aaaa := aaaa + [ip])
      case ItemNs(host) => this.(ns := ns + [host])
    }

    predicate Empty() {
      a == [] && aaaa == [] && ns == []
    }
  }

  const NOTHING := Lists([], [], [])

  type View = map<string, Lists>

  function Get(v: View, name: string): Lists {
    if name in v then v[name] else NOTHING
  }

  /** The effect of one line; a name whose data cannot be read still gets an empty record. */
  function Apply(v: View, r: LineResult): View {
    match r
    case Skip => v
    case Bad(name) => v[name := Get(v, name)]
    case Keep(name, item) => v[name := Get(v, name).Plus(item)]
  }

  function ApplySuffix(suffix: Option<string>, r: LineResult): Option<string> {
    if r.Keep? then NextSuffix(suffix, r.name) else suffix
  }

  /** The zone after some lines. */
  function ViewOf(codec: Codec, lines: seq<string>): View {
    if lines == [] then map[] else Apply(ViewOf(codec, lines[..|lines| - 1]), ParseLine(codec, lines[|lines| - 1]))
  }

  function SuffixOf(codec: Codec, lines: seq<string>): Option<string> {
    if lines == [] then None
    else ApplySuffix(SuffixOf(codec, lines[..|lines| - 1]), ParseLine(codec, lines[|lines| - 1]))
  }

  function NameOf(suffix: Option<string>): string {
    match suffix
    case None => ""
    case Some(z) => z
  }

  /** The names that have at least one record. */
  function Kept(v: View): set<string> {
    set n | n in v && !v[n].Empty()
  }

  function NonEmpty(v: View): View {
    map n | n in v && !v[n].Empty() :: v[n]
  }

  predicate CanonicalLists(l: Lists) {
    && (forall i :: 0 <= i < |l.a| ==> l.a[i].Valid())
    && (forall i :: 0 <= i < |l.aaaa| ==> l.aaaa[i].Valid())
    && (forall i :: 0 <= i < |l.ns| ==> CanonicalHost(l.ns[i]))
  }

  ghost predicate CanonicalView(v: View) {
    forall n :: n in v && !v[n].Empty() ==>
      CanonicalName(n) && CanonicalLists(v[n])
  }

  /** The zone name is the longest dot-bounded suffix of the names that have records, in whatever order the
   *  lines come. */
  lemma {:induction false} ZoneNameIsLongest(codec: Codec, lines: seq<string>)
    ensures Tracks(SuffixOf(codec, lines), Kept(ViewOf(codec, lines)))
  {
    hide ParseLine, Longest;
    if lines != [] {
      var init := lines[..|lines| - 1];
      var r := ParseLine(codec, lines[|lines| - 1]);
      var v := ViewOf(codec, init);
      ZoneNameIsLongest(codec, init);
      if r.Keep? {
        NextSuffixTracks(SuffixOf(codec, init), r.name, Kept(v));
        assert !Get(v, r.name).Plus(r.item).Empty();
        assert Kept(Apply(v, r)) == Kept(v) + {r.name};
      } else {
        assert Kept(Apply(v, r)) == Kept(v);
      }
    }
  }

  lemma {:induction false} ParsedViewCanonical(codec: Codec, lines: seq<string>)
    requires codec.Valid()
    ensures CanonicalView(ViewOf(codec, lines))
  {
    hide ParseLine, CanonicalHost, CanonicalName;
    if lines != [] {
      var init := lines[..|lines| - 1];
      ParsedViewCanonical(codec, init);
      ParsedCanonical(codec, lines[|lines| - 1]);
    }
  }

  // ----------------------------------------------------------------------------- printing

  function ItemsA(a: seq<Ip4>): (r: seq<Item>)
    ensures |r| == |a|
  {
    seq(|a|, i requires 0 <= i < |a| => ItemA(a[i]))
  }

  function ItemsAaaa(a: seq<Ip6>): (r: seq<Item>)
    ensures |r| == |a|
  {
    seq(|a|, i requires 0 <= i < |a| => ItemAaaa(a[i]))
  }

  function ItemsNs(a: seq<string>): (r: seq<Item>)
    ensures |r| == |a|
  {
    seq(|a|, i requires 0 <= i < |a| => ItemNs(a[i]))
  }

  /** The records of a name in the order in which they are printed. */
  function Items(l: Lists): (items: seq<Item>)
    ensures |items| == |l.a| + |l.aaaa| + |l.ns|
  {
    ItemsA(l.a) + ItemsAaaa(l.aaaa) + ItemsNs(l.ns)
  }

  function PlusAll(l: Lists, items: seq<Item>): Lists {
    if items == [] then l else PlusAll(l, items[..|items| - 1]).Plus(items[|items| - 1])
  }

  lemma {:induction false} PlusAllAppend(l: Lists, x: seq<Item>, y: seq<Item>)
    ensures PlusAll(l, x + y) == PlusAll(PlusAll(l, x), y)
  {
    if y == [] {
      assert x + y == x;
    } else {
      PlusAllAppend(l, x, y[..|y| - 1]);
      assert (x + y)[..|x + y| - 1] == x + y[..|y| - 1];
    }
  }

  lemma {:induction false} PlusAs(l: Lists, a: seq<Ip4>)
    ensures PlusAll(l, ItemsA(a)) == l.(a := l.a + a)
  {
    var items := ItemsA(a);
    if a == [] {
      assert l.a + a == l.a;
    } else {
      var n := |a| - 1;
      PlusAs(l, a[..n]);
      assert items[..n] == ItemsA(a[..n]);
      assert l.a + a[..n] + [a[n]] == l.a + a;
    }
  }

  lemma {:induction false} PlusAaaas(l: Lists, a: seq<Ip6>)
    ensures PlusAll(l, ItemsAaaa(a)) == l.(aaaa := l.aaaa + a)
  {
    var items := ItemsAaaa(a);
    if a == [] {
      assert l.aaaa + a == l.aaaa;
    } else {
      var n := |a| - 1;
      PlusAaaas(l, a[..n]);
      assert items[..n] == ItemsAaaa(a[..n]);
      assert l.aaaa + a[..n] + [a[n]] == l.aaaa + a;
    }
  }

  lemma {:induction false} PlusNs(l: Lists, a: seq<string>)
    ensures PlusAll(l, ItemsNs(a)) == l.(ns := l.ns + a)
  {
    var items := ItemsNs(a);
    if a == [] {
      assert l.ns + a == l.ns;
    } else {
      var n := |a| - 1;
      PlusNs(l, a[..n]);
      assert items[..n] == ItemsNs(a[..n]);
      assert l.ns + a[..n] + [a[n]] == l.ns + a;
    }
  }

  /** Reading the printed records of a name one after the other restores its lists. */
  lemma PlusItems(l: Lists)
    ensures PlusAll(NOTHING, Items(l)) == l
  {
    hide PlusAll;
    var x, y, z := ItemsA(l.a), ItemsAaaa(l.aaaa), ItemsNs(l.ns);
    var l1, l2 := Lists(l.a, [], []), Lists(l.a, l.aaaa, []);
    assert [] + l.a == l.a && [] + l.aaaa == l.aaaa && [] + l.ns == l.ns;
    PlusAs(NOTHING, l.a);
    assert PlusAll(NOTHING, x) == l1;
    PlusAaaas(l1, l.aaaa);
    assert PlusAll(l1, y) == l2;
    PlusNs(l2, l.ns);
    PlusAllAppend(NOTHING, x, y);
    PlusAllAppend(NOTHING, x + y, z);
    assert Items(l) == x + y + z;
  }

  function LinesFor(codec: Codec, name: string, items: seq<Item>): (lines: seq<string>)
    ensures |lines| == |items|
  {
    seq(|items|, i requires 0 <= i < |items| => LineOf(codec, name, items[i]))
  }

  /** serialize, before the lines are joined; names lists the names in any order. */
  function PrintedLines(codec: Codec, names: seq<string>, v: View): seq<string> {
    if names == [] then [] else LinesFor(codec, names[0], Items(Get(v, names[0]))) + PrintedLines(codec, names[1..], v)
  }

  lemma {:induction false} PrintedAppend(codec: Codec, names: seq<string>, v: View, name: string)
    ensures PrintedLines(codec, names + [name], v)
            == PrintedLines(codec, names, v) + LinesFor(codec, name, Items(Get(v, name)))
  {
    hide Items, LinesFor, Get;
    if names == [] {
      assert names + [name] == [name] && [name][1..] == [];
    } else {
      PrintedAppend(codec, names[1..], v, name);
      assert (names + [name])[1..] == names[1..] + [name] && (names + [name])[0] == names[0];
      AppendLines(LinesFor(codec, names[0], Items(Get(v, names[0]))), PrintedLines(codec, names[1..], v),
                  LinesFor(codec, name, Items(Get(v, name))));
    }
  }

  lemma AppendLines(x: seq<string>, y: seq<string>, z: seq<string>)
    ensures (x + y) + z == x + (y + z)
  {
  }

  /** Reading the lines of one name adds its items to the name and touches nothing else. */
  lemma {:induction false} ReadLinesFor(codec: Codec, before: seq<string>, name: string, items: seq<Item>)
    requires codec.Valid() && CanonicalName(name)
    requires forall i :: 0 <= i < |items| ==> CanonicalItem(items[i])
    ensures var v := ViewOf(codec, before);
            ViewOf(codec, before + LinesFor(codec, name, items))
            == if items == [] then v else v[name := PlusAll(Get(v, name), items)]
  {
    hide ParseLine, LineOf, CanonicalName, Codec.Valid, CanonicalItem;
    var lines := before + LinesFor(codec, name, items);
    if items == [] {
      assert lines == before;
    } else {
      var n := |items| - 1;
      ReadLinesFor(codec, before, name, items[..n]);
      LineRoundTrip(codec, name, items[n]);
      assert lines[..|lines| - 1] == before + LinesFor(codec, name, items[..n]);
      assert lines[|lines| - 1] == LineOf(codec, name, items[n]);
    }
  }

  function Restricted(v: View, names: seq<string>): View {
    map n | n in v && n in names && !v[n].Empty() :: v[n]
  }

  lemma ItemsCanonical(v: View, name: string)
    requires CanonicalView(v) && name in v && !v[name].Empty()
    ensures CanonicalName(name)
    ensures forall i :: 0 <= i < |Items(v[name])| ==> CanonicalItem(Items(v[name])[i])
  {
    hide CanonicalName, CanonicalHost;
  }

  lemma {:induction false} ReadPrinted(codec: Codec, names: seq<string>, v: View)
    requires codec.Valid() && CanonicalView(v)
    requires forall i :: 0 <= i < |names| ==> names[i] in v
    requires forall i, j :: 0 <= i < j < |names| ==> names[i] != names[j]
    ensures ViewOf(codec, PrintedLines(codec, names, v)) == Restricted(v, names)
  {
    hide Codec.Valid, CanonicalView, Items, LinesFor, CanonicalName, CanonicalItem, Restricted, PrintedLines, ViewOf, PlusAll;
    if names == [] {
      NothingPrinted(codec, v);
    } else {
      var k := |names| - 1;
      var init, name := names[..k], names[k];
      ReadPrinted(codec, init, v);
      assert names == init + [name];
      PrintedAppend(codec, init, v, name);
      RestrictedMore(v, init, name);
      var items := Items(v[name]);
      var before := PrintedLines(codec, init, v);
      PlusItems(v[name]);
      if v[name].Empty() {
        assert LinesFor(codec, name, items) == [];
        assert before + [] == before;
      } else {
        ItemsCanonical(v, name);
        ReadLinesFor(codec, before, name, items);
      }
    }
  }

  lemma NothingPrinted(codec: Codec, v: View)
    ensures PrintedLines(codec, [], v) == [] && ViewOf(codec, []) == map[] && Restricted(v, []) == map[]
  {
  }

  lemma RestrictedMore(v: View, init: seq<string>, name: string)
    requires name in v && forall i :: 0 <= i < |init| ==> init[i] != name
    ensures name !in Restricted(v, init) && Get(Restricted(v, init), name) == NOTHING
    ensures Restricted(v, init + [name])
            == if v[name].Empty() then Restricted(v, init) else Restricted(v, init)[name := v[name]]
  {
    var x := Restricted(v, init + [name]);
    var y := if v[name].Empty() then Restricted(v, init) else Restricted(v, init)[name := v[name]];
    assert x.Keys == y.Keys;
  }

  // --------------------------------------------------------------------------------- text

  function Text(lines: seq<string>): string {
    if lines == [] then "" else lines[0] + "\n" + Text(lines[1..])
  }

  function LineLength(text: string): (n: nat)
    ensures n <= |text| && (n < |text| ==> text[n] == '\n')
  {
    if text == "" || text[0] == '\n' then 0 else 1 + LineLength(text[1..])
  }

  /** read_line until the end: the lines without their line ends; a last line needs none. */
  function SplitLines(text: string): seq<string>
    decreases |text|
  {
    if text == "" then []
    else
      var n := LineLength(text);
      [text[..n]] + if n < |text| then SplitLines(text[n + 1..]) else []
  }

  predicate OneLine(s: string) {
    forall i :: 0 <= i < |s| ==> s[i] != '\n'
  }

  lemma {:induction false} LineLengthOf(line: string, rest: string)
    requires OneLine(line)
    ensures LineLength(line + "\n" + rest) == |line|
  {
    var s := line + "\n" + rest;
    if line == "" {
      assert s[0] == '\n';
    } else {
      assert s[0] == line[0] && s[1..] == line[1..] + "\n" + rest;
      LineLengthOf(line[1..], rest);
    }
  }

  lemma {:induction false} SplitText(lines: seq<string>)
    requires forall i :: 0 <= i < |lines| ==> OneLine(lines[i])
    ensures SplitLines(Text(lines)) == lines
  {
    hide OneLine, LineLength;
    if lines != [] {
      var rest := Text(lines[1..]);
      var s := lines[0] + "\n" + rest;
      LineLengthOf(lines[0], rest);
      SplitText(lines[1..]);
      assert s[..|lines[0]|] == lines[0] && s[|lines[0]| + 1..] == rest;
    }
  }

  lemma OneLineTab(x: string, y: string)
    requires OneLine(x) && OneLine(y)
    ensures OneLine(x + "\t" + y)
  {
  }

  lemma SolidIsOneLine(x: string)
    requires Solid(x)
    ensures OneLine(x)
  {
  }

  lemma LineIsOne(codec: Codec, name: string, item: Item)
    requires codec.Valid() && CanonicalName(name) && CanonicalItem(item)
    ensures OneLine(LineOf(codec, name, item))
  {
    hide OneLine, Solid, Codec.Valid, CanonicalItem;
    RdataPrinted(codec, item);
    FixedTokens();
    NameSolid(name);
    var t, d := RtypeOf(item), RdataOf(codec, item);
    SolidIsOneLine(name + ".");
    SolidIsOneLine("3600");
    SolidIsOneLine("in");
    SolidIsOneLine(t);
    SolidIsOneLine(d);
    OneLineTab(t, d);
    OneLineTab("in", t + "\t" + d);
    OneLineTab("3600", "in" + "\t" + (t + "\t" + d));
    OneLineTab(name + ".", "3600" + "\t" + ("in" + "\t" + (t + "\t" + d)));
  }

  lemma {:induction false} PrintedAreLines(codec: Codec, names: seq<string>, v: View)
    requires codec.Valid() && CanonicalView(v) && forall i :: 0 <= i < |names| ==> names[i] in v
    ensures forall i :: 0 <= i < |PrintedLines(codec, names, v)| ==> OneLine(PrintedLines(codec, names, v)[i])
  {
    hide OneLine, LineOf, Codec.Valid, CanonicalView, CanonicalName, CanonicalItem, Items;
    if names != [] {
      PrintedAreLines(codec, names[1..], v);
      var items := Items(v[names[0]]);
      if !v[names[0]].Empty() {
        ItemsCanonical(v, names[0]);
        forall i | 0 <= i < |items|
          ensures OneLine(LineOf(codec, names[0], items[i]))
        {
          LineIsOne(codec, names[0], items[i]);
        }
      } else {
        assert items == [];
      }
    }
  }

  /** serialize as a text. */
  function Printed(codec: Codec, names: seq<string>, v: View): string {
    Text(PrintedLines(codec, names, v))
  }

  ghost predicate EnumeratesView(names: seq<string>, v: View) {
    && (forall i :: 0 <= i < |names| ==> names[i] in v)
    && (forall i, j :: 0 <= i < j < |names| ==> names[i] != names[j])
    && (forall n :: n in v ==> n in names)
  }

  /** Printing any parsed zone, with its names in any order, and parsing the text again gives the same lists for
   *  every name that has a record, and the same zone name. */
  lemma TextRoundTrip(codec: Codec, text: string, names: seq<string>)
    requires codec.Valid() && EnumeratesView(names, ViewOf(codec, SplitLines(text)))
    ensures var lines := SplitLines(text);
            var again := SplitLines(Printed(codec, names, ViewOf(codec, lines)));
            && ViewOf(codec, again) == NonEmpty(ViewOf(codec, lines))
            && NameOf(SuffixOf(codec, again)) == NameOf(SuffixOf(codec, lines))
  {
    hide Codec.Valid, CanonicalView, ParseLine, Longest, LinesFor, OneLine, ViewOf, SuffixOf, PrintedLines, SplitLines, Text;
    var lines := SplitLines(text);
    var v := ViewOf(codec, lines);
    ParsedViewCanonical(codec, lines);
    PrintedAreLines(codec, names, v);
    SplitText(PrintedLines(codec, names, v));
    var again := PrintedLines(codec, names, v);
    ReadPrinted(codec, names, v);
    assert Restricted(v, names) == NonEmpty(v);
    assert Kept(NonEmpty(v)) == Kept(v);
    ZoneNameIsLongest(codec, lines);
    ZoneNameIsLongest(codec, again);
    SameName(SuffixOf(codec, lines), SuffixOf(codec, again), Kept(v));
  }

  lemma SameName(x: Option<string>, y: Option<string>, names: set<string>)
    requires Tracks(x, names) && Tracks(y, names)
    ensures NameOf(x) == NameOf(y)
  {
    hide Longest;
    if x.Some? {
      LongestUnique(x.value, y.value, names);
    }
  }
}
