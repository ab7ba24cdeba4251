/** What a line of a zone file says, stated on its fields and the white space between them; and which lines the
 *  records of a name come from.
 */
module LineFormat {
  import opened Options
  import opened Addresses
  import opened ZoneNames
  import opened ZoneText

  // ------------------------------------------------------------------------- white space

  /** A character between two fields: tab, line feed, form feed, carriage return or blank. */
  predicate Separates(c: char) {
    var x := c as int;
    x == 0x09 || x == 0x0A || x == 0x0C || x == 0x0D || x == 0x20
  }

  /** A character with the Unicode property White_Space. */
  predicate White(c: char) {
    var x := c as int;
    0x09 <= x <= 0x0D || x == 0x20 || x == 0x85 || x == 0xA0 || x == 0x1680 || 0x2000 <= x <= 0x200A
    || x == 0x2028 || x == 0x2029 || x == 0x202F || x == 0x205F || x == 0x3000
  }

  lemma SpaceIs(c: char)
    ensures AsciiSpace(c) <==> Separates(c)
    ensures Space(c) <==> White(c)
  {
  }

  predicate AllWhite(s: string) {
    forall i :: 0 <= i < |s| ==> White(s[i])
  }

  /** A field: not empty, and without separators. */
  predicate Field(s: string) {
    s != "" && forall i :: 0 <= i < |s| ==> !Separates(s[i])
  }

  /** What stands between two fields. */
  predicate Gap(s: string) {
    s != "" && forall i :: 0 <= i < |s| ==> Separates(s[i])
  }

  // ----------------------------------------------------------------------------- trimming

  lemma {:induction false} TrimEndOf(body: string, right: string)
    requires AllWhite(right) && (body != "" ==> !White(body[|body| - 1]))
    ensures TrimEnd(body + right) == body
    decreases |right|
  {
    hide White, Space;
    var s := body + right;
    if right == "" {
      assert s == body;
      if body != "" {
        SpaceIs(body[|body| - 1]);
      }
    } else {
      SpaceIs(s[|s| - 1]);
      assert s[..|s| - 1] == body + right[..|right| - 1];
      TrimEndOf(body, right[..|right| - 1]);
    }
  }

  lemma {:induction false} TrimStartOf(left: string, rest: string)
    requires AllWhite(left) && (rest != "" ==> !White(rest[0]))
    ensures TrimStart(left + rest) == rest
    decreases |left|
  {
    hide White, Space;
    var s := left + rest;
    if left == "" {
      assert s == rest;
      if rest != "" {
        SpaceIs(rest[0]);
      }
    } else {
      SpaceIs(s[0]);
      assert s[1..] == left[1..] + rest;
      TrimStartOf(left[1..], rest);
    }
  }

  /** White space around a text without any at its ends is removed. */
  lemma TrimOf(left: string, body: string, right: string)
    requires AllWhite(left) && AllWhite(right)
    requires body != "" ==> !White(body[0]) && !White(body[|body| - 1])
    ensures Trim(left + body + right) == body
  {
    hide White;
    assert left + body + right == left + (body + right);
    if body == "" {
      assert left + body + right == (left + right) + "";
      TrimStartOf(left + right, "");
      TrimEndOf("", "");
    } else {
      TrimStartOf(left, body + right);
      TrimEndOf(body, right);
    }
  }

  // ------------------------------------------------------------------------------- fields

  /** Fields with the given gaps between them. */
  function Joined(fields: seq<string>, gaps: seq<string>): string
    requires |fields| == |gaps| + 1
  {
    if gaps == [] then fields[0] else fields[0] + gaps[0] + Joined(fields[1..], gaps[1..])
  }

  ghost predicate WellSpaced(fields: seq<string>, gaps: seq<string>) {
    && |fields| == |gaps| + 1
    && (forall i :: 0 <= i < |fields| ==> Field(fields[i]))
    && forall i :: 0 <= i < |gaps| ==> Gap(gaps[i])
  }

  lemma {:induction false} SkipGap(gap: string, rest: string)
    requires forall i :: 0 <= i < |gap| ==> Separates(gap[i])
    ensures Tokens(gap + rest) == Tokens(rest)
    decreases |gap|
  {
    hide Separates, AsciiSpace;
    if gap == "" {
      assert gap + rest == rest;
    } else {
      SpaceIs(gap[0]);
      var s := gap + rest;
      assert s[0] == gap[0] && s[1..] == gap[1..] + rest;
      SkipGap(gap[1..], rest);
    }
  }

  lemma FieldIsSolid(f: string)
    requires Field(f)
    ensures f != "" && Solid(f) && !AsciiSpace(f[0])
  {
  }

  /** The fields of a well-spaced text are what it was put together from. */
  lemma {:induction false} TokensOf(fields: seq<string>, gaps: seq<string>)
    requires WellSpaced(fields, gaps)
    ensures Tokens(Joined(fields, gaps)) == fields
    decreases |gaps|
  {
    hide Field, Solid, Gap, TokenLength;
    var f := fields[0];
    FieldIsSolid(f);
    if gaps == [] {
      TokenLengthOf(f, "");
      FirstToken(f, "");
      assert f + "" == f && fields == [f];
    } else {
      var rest := Joined(fields[1..], gaps[1..]);
      GapStarts(gaps[0]);
      assert f + gaps[0] + rest == f + (gaps[0] + rest);
      FirstToken(f, gaps[0] + rest);
      TokensOf(fields[1..], gaps[1..]);
      GapSeparates(gaps[0]);
      SkipGap(gaps[0], rest);
      assert [f] + fields[1..] == fields;
    }
  }

  lemma GapSeparates(gap: string)
    requires Gap(gap)
    ensures forall i :: 0 <= i < |gap| ==> Separates(gap[i])
  {
  }

  lemma GapStarts(gap: string)
    requires Gap(gap)
    ensures gap != "" && AsciiSpace(gap[0])
  {
    SpaceIs(gap[0]);
  }

  lemma FirstToken(f: string, rest: string)
    requires f != "" && Solid(f) && !AsciiSpace(f[0]) && (rest == "" || AsciiSpace(rest[0]))
    ensures Tokens(f + rest) == [f] + Tokens(rest)
  {
    hide Solid, TokenLength, AsciiSpace;
    TokenLengthOf(f, rest);
    var s := f + rest;
    assert s[0] == f[0] && s[..|f|] == f && s[|f|..] == rest;
  }

  /** Any text without separators at its ends is made of fields and gaps. */
  lemma {:induction false} Dissect(s: string) returns (fields: seq<string>, gaps: seq<string>)
    requires s != "" && !Separates(s[0]) && !Separates(s[|s| - 1])
    ensures WellSpaced(fields, gaps) && Joined(fields, gaps) == s
    decreases |s|
  {
    hide Separates;
    var n := 1;
    while n < |s| && !Separates(s[n])
      invariant 1 <= n <= |s| && forall i :: 0 <= i < n ==> !Separates(s[i])
    {
      n := n + 1;
    }
    var f := s[..n];
    if n == |s| {
      fields, gaps := [f], [];
      return;
    }
    var m := n;
    while m < |s| && Separates(s[m])
      invariant n <= m <= |s| && forall i :: n <= i < m ==> Separates(s[i])
    {
      m := m + 1;
    }
    var gap, rest := s[n..m], s[m..];
    assert rest[|rest| - 1] == s[|s| - 1];
    var more, between := Dissect(rest);
    fields, gaps := [f] + more, [gap] + between;
    assert fields[1..] == more && gaps[1..] == between && f + gap + rest == s;
  }

  // -------------------------------------------------------------------------------- words

  /** f is the word in any mixture of upper and lower case. */
  predicate Spells(f: string, word: string) {
    |f| == |word| && forall i :: 0 <= i < |f| ==> f[i] == word[i] || f[i] as int + 32 == word[i] as int
  }

  lemma SpellsWord(f: string, word: string)
    requires forall i :: 0 <= i < |word| ==> 'a' <= word[i] <= 'z'
    ensures Lower(f) == word <==> Spells(f, word)
  {
    if Lower(f) == word {
      forall i | 0 <= i < |f|
        ensures f[i] == word[i] || f[i] as int + 32 == word[i] as int
      {
        assert Lower(f)[i] == LowerChar(f[i]);
      }
    }
  }

  predicate Digits(f: string) {
    f != "" && forall i :: 0 <= i < |f| ==> 0x30 <= f[i] as int <= 0x39
  }

  /** A time to live or a class. */
  predicate Optional(f: string) {
    Digits(f) || Spells(f, "in") || Spells(f, "cs") || Spells(f, "ch") || Spells(f, "hs")
  }

  lemma OptionalIs(f: string)
    ensures Optional(f) <==> IsTtl(f) || IsClass(f)
  {
    SpellsWord(f, "in");
    SpellsWord(f, "cs");
    SpellsWord(f, "ch");
    SpellsWord(f, "hs");
    hide Lower, Spells;
  }

  /** c is f without its trailing dots, in lower case. */
  predicate CanonicalOf(f: string, c: string) {
    && |c| <= |f| && (forall i :: |c| <= i < |f| ==> f[i] == '.') && (c != "" ==> f[|c| - 1] != '.')
    && forall i :: 0 <= i < |c| ==> c[i] as int == f[i] as int + if 0x41 <= f[i] as int <= 0x5A then 32 else 0
  }

  lemma {:induction false} TrimDotsTail(s: string)
    ensures |TrimDots(s)| <= |s| && forall i :: |TrimDots(s)| <= i < |s| ==> s[i] == '.'
  {
    if s != "" && s[|s| - 1] == '.' {
      TrimDotsTail(s[..|s| - 1]);
    }
  }

  lemma CanonicalIs(f: string)
    ensures CanonicalOf(f, Canonical(f))
  {
    TrimDotsFacts(f);
    TrimDotsTail(f);
  }

  lemma CanonicalUnique(f: string, c: string, d: string)
    requires CanonicalOf(f, c) && CanonicalOf(f, d)
    ensures c == d
  {
  }

  // --------------------------------------------------------------------------- whole lines

  /** What the fields of a line say if fields[1..k] are times to live and classes and field k, where there is one, is
   *  neither: a record of a known type with the data of the next field, and nothing for any other type or if a field
   *  is missing. */
  ghost predicate Says(codec: Codec, fields: seq<string>, k: nat, r: LineResult)
    requires 1 <= k
  {
    if k + 1 >= |fields| then r == Skip
    else
      var data := fields[k + 1];
      if Spells(fields[k], "a") then
        if codec.parse4(data).None? then r.Bad? && CanonicalOf(fields[0], r.name)
        else r.Keep? && CanonicalOf(fields[0], r.name) && r.item == ItemA(codec.parse4(data).value)
      else if Spells(fields[k], "aaaa") then
        if codec.parse6(data).None? then r.Bad? && CanonicalOf(fields[0], r.name)
        else r.Keep? && CanonicalOf(fields[0], r.name) && r.item == ItemAaaa(codec.parse6(data).value)
      else if Spells(fields[k], "ns") then
        r.Keep? && CanonicalOf(fields[0], r.name) && r.item.ItemNs? && CanonicalOf(data, r.item.host)
      else r == Skip
  }

  /** Fields 1 to k - 1 may be left out, and field k is the type. */
  ghost predicate TypeAt(fields: seq<string>, k: nat) {
    && 1 <= k <= |fields| && (forall j :: 1 <= j < k ==> Optional(fields[j]))
    && (k < |fields| ==> !Optional(fields[k]))
  }

  lemma {:induction false} SkipTo(fields: seq<string>, from: nat, k: nat)
    requires from <= k <= |fields| && (forall j :: from <= j < k ==> Optional(fields[j]))
    requires k < |fields| ==> !Optional(fields[k])
    ensures SkipTtlAndClass(fields[from..]) == fields[k..]
    decreases k - from
  {
    hide Optional, IsTtl, IsClass;
    var rest := fields[from..];
    if from < k {
      OptionalIs(fields[from]);
      SkipTo(fields, from + 1, k);
      assert rest[0] == fields[from] && rest[1..] == fields[from + 1..];
    } else if k < |fields| {
      OptionalIs(fields[k]);
      assert rest[0] == fields[k];
    }
  }

  lemma TypeWords(t: string)
    ensures Lower(t) == "a" <==> Spells(t, "a")
    ensures Lower(t) == "aaaa" <==> Spells(t, "aaaa")
    ensures Lower(t) == "ns" <==> Spells(t, "ns")
  {
    SpellsWord(t, "a");
    SpellsWord(t, "aaaa");
    SpellsWord(t, "ns");
  }

  lemma FieldsRead(codec: Codec, fields: seq<string>, k: nat)
    requires TypeAt(fields, k)
    ensures Says(codec, fields, k, ParseFields(codec, fields))
  {
    SkipTo(fields, 1, k);
    CanonicalIs(fields[0]);
    if k + 1 < |fields| {
      TypeWords(fields[k]);
      CanonicalIs(fields[k + 1]);
      assert fields[k..][0] == fields[k] && fields[k..][1] == fields[k + 1];
    }
    hide Optional, SkipTtlAndClass, Spells, Lower, Canonical, CanonicalOf;
  }

  /** Every line, whatever its case, its white space and its optional fields: white lines and comments say nothing, any
   *  other line says what its fields do. */
  lemma LineRead(codec: Codec, left: string, fields: seq<string>, gaps: seq<string>, right: string, k: nat)
    requires AllWhite(left) && AllWhite(right) && WellSpaced(fields, gaps) && TypeAt(fields, k)
    requires var f, l := fields[0], fields[|fields| - 1]; !White(f[0]) && !White(l[|l| - 1])
    ensures var r := ParseLine(codec, left + Joined(fields, gaps) + right);
            if fields[0][0] == ';' then r == Skip else Says(codec, fields, k, r)
  {
    hide Says, ParseFields, Trim, White, TypeAt;
    JoinedEnds(fields, gaps);
    TrimOf(left, Joined(fields, gaps), right);
    TokensOf(fields, gaps);
    FieldsRead(codec, fields, k);
  }

  lemma {:induction false} JoinedEnds(fields: seq<string>, gaps: seq<string>)
    requires WellSpaced(fields, gaps)
    ensures var s, l := Joined(fields, gaps), fields[|fields| - 1];
            s != "" && l != "" && fields[0] != "" && s[0] == fields[0][0] && s[|s| - 1] == l[|l| - 1]
    decreases |gaps|
  {
    hide Gap;
    if gaps != [] {
      JoinedEnds(fields[1..], gaps[1..]);
      assert fields[1..][|fields| - 2] == fields[|fields| - 1];
    }
  }

  lemma WhiteLine(codec: Codec, raw: string)
    requires AllWhite(raw)
    ensures ParseLine(codec, raw) == Skip
  {
    TrimOf(raw, "", "");
    assert raw + "" + "" == raw;
  }

  /** White space at both ends of a text. */
  lemma Trimmed(raw: string) returns (left: string, body: string, right: string)
    requires !AllWhite(raw)
    ensures AllWhite(left) && AllWhite(right) && raw == left + body + right
    ensures body != "" && !White(body[0]) && !White(body[|body| - 1])
  {
    hide White;
    var n := 0;
    while n < |raw| && White(raw[n])
      invariant 0 <= n <= |raw| && forall i :: 0 <= i < n ==> White(raw[i])
    {
      n := n + 1;
    }
    assert n < |raw|;
    var m := |raw|;
    while White(raw[m - 1])
      invariant n < m <= |raw| && forall i :: m <= i < |raw| ==> White(raw[i])
      decreases m
    {
      m := m - 1;
    }
    left, body, right := raw[..n], raw[n..m], raw[m..];
  }

  lemma FindType(fields: seq<string>) returns (k: nat)
    requires fields != []
    ensures TypeAt(fields, k)
  {
    hide Optional;
    k := 1;
    while k < |fields| && Optional(fields[k])
      invariant 1 <= k <= |fields| && forall j :: 1 <= j < k ==> Optional(fields[j])
    {
      k := k + 1;
    }
  }

  /** There is no other kind of line. */
  lemma EveryLine(raw: string) returns (left: string, fields: seq<string>, gaps: seq<string>, right: string, k: nat)
    requires !AllWhite(raw)
    ensures AllWhite(left) && AllWhite(right) && WellSpaced(fields, gaps) && TypeAt(fields, k)
    ensures fields[0] != "" && !White(fields[0][0])
    ensures var l := fields[|fields| - 1]; l != "" && !White(l[|l| - 1])
    ensures raw == left + Joined(fields, gaps) + right
  {
    var body;
    left, body, right := Trimmed(raw);
    hide White, Separates, TypeAt;
    WhiteSeparates(body[0]);
    WhiteSeparates(body[|body| - 1]);
    fields, gaps := Dissect(body);
    JoinedEnds(fields, gaps);
    k := FindType(fields);
  }

  lemma WhiteSeparates(c: char)
    ensures Separates(c) ==> White(c)
  {
  }

  // ------------------------------------------------------------------------ lines of a text

  /** The lines are those between line feeds: put together again they give the text, but for a line feed at its end. */
  lemma {:induction false} LinesOf(text: string)
    ensures forall i :: 0 <= i < |SplitLines(text)| ==> OneLine(SplitLines(text)[i])
    ensures Text(SplitLines(text)) == Ended(text)
    decreases |text|
  {
    hide *;
    if text == "" {
      NothingSplit();
    } else {
      var n := LineLength(text);
      LineStart(text);
      if n < |text| {
        var rest := text[n + 1..];
        LinesOf(rest);
        FirstLine(text);
        CutAt(text, n);
        TextMore(text[..n], SplitLines(rest));
        AllOneLine(text[..n], SplitLines(rest));
        EndedBehind(text[..n], rest);
      } else {
        LastOfText(text);
      }
    }
  }

  lemma NothingSplit()
    ensures SplitLines("") == [] && Text([]) == "" == Ended("")
  {
  }

  /** A text with its line feed at the end. */
  function Ended(text: string): string {
    if text == "" || text[|text| - 1] == '\n' then text else text + "\n"
  }

  lemma FirstLine(text: string)
    requires text != "" && LineLength(text) < |text|
    ensures SplitLines(text) == [text[..LineLength(text)]] + SplitLines(text[LineLength(text) + 1..])
  {
    hide LineLength;
  }

  lemma CutAt(text: string, n: nat)
    requires n < |text| && text[n] == '\n'
    ensures text == text[..n] + "\n" + text[n + 1..]
  {
    assert "\n" == [text[n]];
  }

  lemma EndedBehind(line: string, rest: string)
    ensures Ended(line + "\n" + rest) == line + "\n" + Ended(rest)
  {
    var text := line + "\n" + rest;
    if rest != "" {
      assert text[|text| - 1] == rest[|rest| - 1];
      assert text + "\n" == line + "\n" + (rest + "\n");
    } else {
      assert text[|text| - 1] == '\n';
    }
  }

  lemma TextMore(line: string, more: seq<string>)
    ensures Text([line] + more) == line + "\n" + Text(more)
  {
    assert ([line] + more)[1..] == more;
  }

  lemma AllOneLine(line: string, more: seq<string>)
    requires OneLine(line) && forall i :: 0 <= i < |more| ==> OneLine(more[i])
    ensures forall i :: 0 <= i < |[line] + more| ==> OneLine(([line] + more)[i])
  {
    hide OneLine;
  }

  lemma LastOfText(text: string)
    requires text != "" && LineLength(text) == |text| && OneLine(text[..LineLength(text)])
    ensures forall i :: 0 <= i < |SplitLines(text)| ==> OneLine(SplitLines(text)[i])
    ensures Text(SplitLines(text)) == Ended(text)
  {
    NoLineEnd(text);
    hide OneLine, LineLength;
    assert text[..|text|] == text && SplitLines(text) == [text] && [text][1..] == [];
  }

  lemma {:induction false} LineStart(text: string)
    ensures OneLine(text[..LineLength(text)])
  {
    if text != "" && text[0] != '\n' {
      LineStart(text[1..]);
      var n := LineLength(text[1..]);
      assert text[..n + 1] == [text[0]] + text[1..][..n];
    }
  }

  lemma NoLineEnd(text: string)
    requires text != "" && LineLength(text) == |text|
    ensures text[|text| - 1] != '\n'
  {
    LineStart(text);
    assert text[..|text|] == text;
  }

  /** The line that is written for a record. */
  lemma LinePrinted(codec: Codec, name: string, ip4: Ip4, ip6: Ip6, host: string)
    ensures LineOf(codec, name, ItemA(ip4)) == name + ".\t3600\tin\ta\t" + codec.print4(ip4)
    ensures LineOf(codec, name, ItemAaaa(ip6)) == name + ".\t3600\tin\taaaa\t" + codec.print6(ip6)
    ensures LineOf(codec, name, ItemNs(host)) == name + ".\t3600\tin\tns\t" + host + "."
  {
    Glue(name, "a", codec.print4(ip4));
    Glue(name, "aaaa", codec.print6(ip6));
    Glue(name, "ns", host + ".");
    assert ".\t3600\tin\t" + "a" + "\t" == ".\t3600\tin\ta\t";
    assert ".\t3600\tin\t" + "aaaa" + "\t" == ".\t3600\tin\taaaa\t";
    assert ".\t3600\tin\t" + "ns" + "\t" == ".\t3600\tin\tns\t";
    assert name + ".\t3600\tin\tns\t" + (host + ".") == name + ".\t3600\tin\tns\t" + host + ".";
  }

  lemma Glue(name: string, t: string, data: string)
    ensures name + "." + "\t" + ("3600" + "\t" + ("in" + "\t" + (t + "\t" + data)))
            == name + (".\t3600\tin\t" + t + "\t") + data
  {
    assert "." + "\t" + "3600" + "\t" + "in" + "\t" == ".\t3600\tin\t";
    Regroup(name, ".", "\t", "3600", "in", t, data);
  }

  lemma Regroup(a: string, b: string, c: string, d: string, e: string, t: string, z: string)
    ensures a + b + c + (d + c + (e + c + (t + c + z))) == a + (b + c + d + c + e + c + t + c) + z
  {
    assert e + c + (t + c + z) == (e + c + t + c) + z;
    assert d + c + (e + c + (t + c + z)) == (d + c + e + c + t + c) + z;
    assert b + c + d + c + e + c + t + c == b + c + (d + c + e + c + t + c);
  }

  // --------------------------------------------------------------------- where records come from

  datatype Kind = KindA | KindAaaa | KindNs

  function KindOf(item: Item): Kind {
    match item
    case ItemA(_) => KindA
    case ItemAaaa(_) => KindAaaa
    case ItemNs(_) => KindNs
  }

  /** The records of one kind in a name's lists. */
  function OfKind(l: Lists, kind: Kind): seq<Item> {
    match kind
    case KindA => ItemsA(l.a)
    case KindAaaa => ItemsAaaa(l.aaaa)
    case KindNs => ItemsNs(l.ns)
  }

  predicate Gives(r: LineResult, name: string, kind: Kind) {
    r.Keep? && r.name == name && KindOf(r.item) == kind
  }

  /** The items are those of the lines at the given numbers, which are all lines that give the name an item of that
   *  kind, in their order. */
  ghost predicate ComesFrom(codec: Codec, lines: seq<string>, name: string, kind: Kind, at: seq<nat>, items: seq<Item>) {
    && |at| == |items|
    && (forall i, j :: 0 <= i < j < |at| ==> at[i] < at[j])
    && (forall i :: 0 <= i < |at| ==> at[i] < |lines| && Gives(ParseLine(codec, lines[at[i]]), name, kind)
                                       && ParseLine(codec, lines[at[i]]).item == items[i])
    && forall k: nat :: k < |lines| && Gives(ParseLine(codec, lines[k]), name, kind) ==> k in at
  }

  /** The records of every name are exactly those that the lines give it, in the order of the lines. */
  lemma {:induction false} RecordsComeFrom(codec: Codec, lines: seq<string>, name: string, kind: Kind) returns (at: seq<nat>)
    ensures ComesFrom(codec, lines, name, kind, at, OfKind(Get(ViewOf(codec, lines), name), kind))
    decreases |lines|
  {
    hide ParseLine, ViewOf, ComesFrom, OfKind, Get, Gives;
    if lines == [] {
      at := [];
      NoLines(codec, name, kind);
    } else {
      var n := |lines| - 1;
      var init, r := lines[..n], ParseLine(codec, lines[n]);
      at := RecordsComeFrom(codec, init, name, kind);
      LastLine(codec, lines, name, kind);
      if Gives(r, name, kind) {
        ComesFromMore(codec, init, lines[n], name, kind, at, OfKind(Get(ViewOf(codec, init), name), kind));
        at := at + [n];
      } else {
        ComesFromSame(codec, init, lines[n], name, kind, at, OfKind(Get(ViewOf(codec, init), name), kind));
      }
      assert init + [lines[n]] == lines;
    }
  }

  lemma NoLines(codec: Codec, name: string, kind: Kind)
    ensures ComesFrom(codec, [], name, kind, [], OfKind(Get(ViewOf(codec, []), name), kind))
  {
  }

  /** The last line adds its item, or nothing. */
  lemma LastLine(codec: Codec, lines: seq<string>, name: string, kind: Kind)
    requires lines != []
    ensures var n := |lines| - 1;
            var before, r := OfKind(Get(ViewOf(codec, lines[..n]), name), kind), ParseLine(codec, lines[n]);
            OfKind(Get(ViewOf(codec, lines), name), kind) == if Gives(r, name, kind) then before + [r.item] else before
  {
    hide ParseLine;
    var n := |lines| - 1;
    var r := ParseLine(codec, lines[n]);
    if r.Keep? {
      PlusOfKind(Get(ViewOf(codec, lines[..n]), r.name), r.item, kind);
    }
    hide OfKind, Lists.Plus, KindOf;
  }

  lemma PlusOfKind(l: Lists, item: Item, kind: Kind)
    ensures OfKind(l.Plus(item), kind) == if KindOf(item) == kind then OfKind(l, kind) + [item] else OfKind(l, kind)
  {
  }

  lemma ComesFromMore(codec: Codec, init: seq<string>, line: string, name: string, kind: Kind, at: seq<nat>, items: seq<Item>)
    requires ComesFrom(codec, init, name, kind, at, items) && Gives(ParseLine(codec, line), name, kind)
    ensures ComesFrom(codec, init + [line], name, kind, at + [|init|], items + [ParseLine(codec, line).item])
  {
    hide ParseLine, Gives;
    var lines, more := init + [line], at + [|init|];
    forall k: nat | k < |lines| && Gives(ParseLine(codec, lines[k]), name, kind)
      ensures k in more
    {
      if k < |init| {
        assert lines[k] == init[k];
      } else {
        assert more[|at|] == k;
      }
    }
  }

  lemma ComesFromSame(codec: Codec, init: seq<string>, line: string, name: string, kind: Kind, at: seq<nat>, items: seq<Item>)
    requires ComesFrom(codec, init, name, kind, at, items) && !Gives(ParseLine(codec, line), name, kind)
    ensures ComesFrom(codec, init + [line], name, kind, at, items)
  {
    hide ParseLine, Gives;
    var lines := init + [line];
    forall k: nat | k < |lines| && Gives(ParseLine(codec, lines[k]), name, kind)
      ensures k in at
    {
      assert lines[k] == if k < |init| then init[k] else line;
    }
  }

  /** A name is known exactly if some line of a known type starts with it, even if its data cannot be read. */
  lemma {:induction false} NamesComeFrom(codec: Codec, lines: seq<string>, name: string)
    ensures name in ViewOf(codec, lines)
            <==> exists k :: 0 <= k < |lines| && Mentions(ParseLine(codec, lines[k]), name)
    decreases |lines|
  {
    hide ParseLine;
    if lines != [] {
      var n := |lines| - 1;
      NamesComeFrom(codec, lines[..n], name);
      if k :| 0 <= k < n && Mentions(ParseLine(codec, lines[..n][k]), name) {
        assert lines[k] == lines[..n][k];
      }
      if k :| 0 <= k < |lines| && Mentions(ParseLine(codec, lines[k]), name) {
        if k < n {
          assert lines[..n][k] == lines[k];
        }
      }
    }
  }

  predicate Mentions(r: LineResult, name: string) {
    !r.Skip? && r.name == name
  }

  // ------------------------------------------------------------------------- hosts and the zone

  /** Some line lists the host as a name server. */
  ghost predicate ListsServer(codec: Codec, lines: seq<string>, host: string) {
    exists k :: 0 <= k < |lines| && ParseLine(codec, lines[k]).Keep? && ParseLine(codec, lines[k]).item == ItemNs(host)
  }

  /** The hosts listed as name servers, each where it is listed for the first time. */
  function ServersOf(codec: Codec, lines: seq<string>): (pool: seq<string>) {
    if lines == [] then []
    else
      var before := ServersOf(codec, lines[..|lines| - 1]);
      var r := ParseLine(codec, lines[|lines| - 1]);
      if r.Keep? && r.item.ItemNs? && r.item.host !in before then before + [r.item.host] else before
  }

  lemma {:induction false} ServersListed(codec: Codec, lines: seq<string>)
    ensures forall host :: host in ServersOf(codec, lines) <==> ListsServer(codec, lines, host)
    ensures forall i, j :: 0 <= i < j < |ServersOf(codec, lines)| ==> ServersOf(codec, lines)[i] != ServersOf(codec, lines)[j]
    decreases |lines|
  {
    hide ParseLine;
    if lines != [] {
      var n := |lines| - 1;
      ServersListed(codec, lines[..n]);
      forall host
        ensures host in ServersOf(codec, lines) <==> ListsServer(codec, lines, host)
      {
        MoreServers(codec, lines[..n], lines[n], host);
        assert lines[..n] + [lines[n]] == lines;
      }
    }
  }

  lemma MoreServers(codec: Codec, init: seq<string>, line: string, host: string)
    ensures ListsServer(codec, init + [line], host)
            <==> ListsServer(codec, init, host)
                 || (ParseLine(codec, line).Keep? && ParseLine(codec, line).item == ItemNs(host))
  {
    hide ParseLine;
    var lines := init + [line];
    if k :| 0 <= k < |init| && ParseLine(codec, init[k]).Keep? && ParseLine(codec, init[k]).item == ItemNs(host) {
      assert lines[k] == init[k];
    }
    if k :| 0 <= k < |lines| && ParseLine(codec, lines[k]).Keep? && ParseLine(codec, lines[k]).item == ItemNs(host) {
      assert lines[k] == if k < |init| then init[k] else line;
    }
    assert lines[|init|] == line;
  }

  /** The order is that of the first line for each host. */
  lemma {:induction false} ServersInOrder(codec: Codec, lines: seq<string>, n: nat)
    requires n <= |lines|
    ensures |ServersOf(codec, lines[..n])| <= |ServersOf(codec, lines)|
    ensures ServersOf(codec, lines[..n]) == ServersOf(codec, lines)[..|ServersOf(codec, lines[..n])|]
    decreases |lines|
  {
    hide ParseLine;
    if n == |lines| {
      assert lines[..n] == lines;
    } else {
      var k := |lines| - 1;
      ServersInOrder(codec, lines[..k], n);
      assert lines[..k][..n] == lines[..n];
    }
  }

  /** A zone without records has no name; any other zone is named by the longest suffix of its names with records. */
  lemma ZoneNameCases(codec: Codec, lines: seq<string>)
    ensures var names, z := Kept(ViewOf(codec, lines)), NameOf(SuffixOf(codec, lines));
            if names == {} then z == "" else Longest(z, names)
  {
    ZoneNameIsLongest(codec, lines);
    hide ViewOf, SuffixOf, Longest;
  }
}
