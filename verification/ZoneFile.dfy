/** Zone::parse and serialize_bounded as the program runs them: growing maps, an interned pool of name-server
 *  hosts, a running suffix, and an output that is cut off at a cap.
 */
module ZoneFile {
  import opened Options
  import opened Addresses
  import opened Utf8
  import opened Zones
  import opened ZoneNames
  import opened ZoneText
  import opened LineFormat

  /** The records of a name with the hosts put in for their indices. */
  function Resolve(rec: NameRecords, pool: seq<string>): Lists
    requires rec.InPool(pool)
  {
    Lists(rec.a, rec.aaaa, seq(|rec.ns|, i requires 0 <= i < |rec.ns| => pool[rec.ns[i]]))
  }

  function Resolved(zone: Zone): View
    requires zone.Valid()
  {
    map n | n in zone.records :: Resolve(zone.records[n], zone.nsPool)
  }

  /** The maps of the parser stand for a view of the zone. */
  ghost predicate Shows(records: map<string, NameRecords>, pool: seq<string>, v: View) {
    && records.Keys == v.Keys
    && forall n :: n in records ==> records[n].InPool(pool) && Resolve(records[n], pool) == v[n]
  }

  /** The intern map finds every host of the pool at its index. */
  ghost predicate Interned(intern: map<string, nat>, pool: seq<string>) {
    && (forall h :: h in intern ==> intern[h] < |pool| && pool[intern[h]] == h)
    && forall i :: 0 <= i < |pool| ==> pool[i] in intern && intern[pool[i]] == i
  }

  lemma ResolveGrows(rec: NameRecords, pool: seq<string>, host: string)
    requires rec.InPool(pool)
    ensures rec.InPool(pool + [host]) && Resolve(rec, pool + [host]) == Resolve(rec, pool)
  {
  }

  lemma ShowsGrows(records: map<string, NameRecords>, pool: seq<string>, v: View, host: string)
    requires Shows(records, pool, v)
    ensures Shows(records, pool + [host], v)
  {
    hide NameRecords.InPool, Resolve;
    forall n | n in records
      ensures records[n].InPool(pool + [host]) && Resolve(records[n], pool + [host]) == v[n]
    {
      ResolveGrows(records[n], pool, host);
    }
  }

  /** The index of a host, new or old. */
  method Intern(intern: map<string, nat>, pool: seq<string>, host: string, ghost records: map<string, NameRecords>, ghost v: View)
    returns (idx: nat, intern': map<string, nat>, pool': seq<string>)
    requires Interned(intern, pool) && Shows(records, pool, v)
    ensures Interned(intern', pool') && Shows(records, pool', v)
    ensures pool' == if host in pool then pool else pool + [host]
    ensures idx < |pool'| && pool'[idx] == host
  {
    if host in intern {
      return intern[host], intern, pool;
    }
    ShowsGrows(records, pool, v, host);
    idx := |pool|;
    pool' := pool + [host];
    intern' := intern[host := idx];
  }

  lemma PlusResolved(rec: NameRecords, pool: seq<string>, idx: nat)
    requires rec.InPool(pool) && idx < |pool|
    ensures var more := rec.(ns := rec.ns + [idx]);
            more.InPool(pool) && Resolve(more, pool) == Resolve(rec, pool).Plus(ItemNs(pool[idx]))
  {
  }

  /** One kept line. */
  method AddItem(records: map<string, NameRecords>, intern: map<string, nat>, pool: seq<string>, name: string, item: Item,
                 ghost v: View)
    returns (records': map<string, NameRecords>, intern': map<string, nat>, pool': seq<string>)
    requires Interned(intern, pool) && Shows(records, pool, v) && name in records
    ensures Interned(intern', pool') && Shows(records', pool', v[name := v[name].Plus(item)])
    ensures pool' == if item.ItemNs? && item.host !in pool then pool + [item.host] else pool
  {
    intern', pool' := intern, pool;
    var entry := records[name];
    match item {
      case ItemA(ip) =>
        entry := entry.(a := entry.a + [ip]);
      case ItemAaaa(ip) =>
        entry := entry.(aaaa := entry.aaaa + [ip]);
      case ItemNs(host) =>
        var idx: nat;
        idx, intern', pool' := Intern(intern, pool, host, records, v);
        PlusResolved(entry, pool', idx);
        entry := entry.(ns := entry.ns + [idx]);
    }
    records' := records[name := entry];
  }

  /** Zone::parse. */
  method Parse(codec: Codec, text: string) returns (zone: Zone)
    ensures zone.Valid() && Resolved(zone) == ViewOf(codec, SplitLines(text))
    ensures zone.zoneName == NameOf(SuffixOf(codec, SplitLines(text)))
    ensures zone.nsPool == ServersOf(codec, SplitLines(text))
    ensures forall i, j :: 0 <= i < j < |zone.nsPool| ==> zone.nsPool[i] != zone.nsPool[j]
    ensures codec.Valid() ==> zone.Addresses()
  {
    hide ParseLine, NextSuffix, SplitLines, Shows, Interned, ViewOf, SuffixOf, ServersOf;
    var lines := SplitLines(text);
    var records: map<string, NameRecords> := map[];
    var pool: seq<string> := [];
    var intern: map<string, nat> := map[];
    var suffix: Option<string> := None;
    assert lines[..0] == [];
    NothingParsed(codec);
    for k := 0 to |lines|
      invariant Interned(intern, pool) && Shows(records, pool, ViewOf(codec, lines[..k]))
      invariant suffix == SuffixOf(codec, lines[..k]) && pool == ServersOf(codec, lines[..k])
    {
      ghost var v := ViewOf(codec, lines[..k]);
      assert lines[..k + 1] == lines[..k] + [lines[k]];
      OneMoreLine(codec, lines[..k], lines[k]);
      match ParseLine(codec, lines[k]) {
        case Skip =>
        case Bad(name) =>
          records := EnsureRecord(records, name, pool, v);
        case Keep(name, item) =>
          records := EnsureRecord(records, name, pool, v);
          records, intern, pool := AddItem(records, intern, pool, name, item, v[name := Get(v, name)]);
          suffix := NextSuffix(suffix, name);
          assert v[name := Get(v, name)][name := Get(v, name).Plus(item)] == v[name := Get(v, name).Plus(item)];
      }
    }
    assert lines[..|lines|] == lines;
    zone := Zone(records, NameOf(suffix), pool);
    ParsedZone(zone, intern, ViewOf(codec, lines));
    ParsedAddresses(codec, lines, zone);
  }

  /** What the parser accepts are proper addresses. */
  lemma ParsedAddresses(codec: Codec, lines: seq<string>, zone: Zone)
    requires zone.Valid() && Resolved(zone) == ViewOf(codec, lines)
    ensures codec.Valid() ==> zone.Addresses()
  {
    hide ViewOf, Codec.Valid, CanonicalName, CanonicalHost;
    if codec.Valid() {
      ParsedViewCanonical(codec, lines);
      forall n | n in zone.records
        ensures zone.records[n].Addresses()
      {
        assert n in Resolved(zone) && Resolved(zone)[n] == Resolve(zone.records[n], zone.nsPool);
      }
    }
  }

  lemma NothingParsed(codec: Codec)
    ensures Interned(map[], []) && Shows(map[], [], ViewOf(codec, [])) && SuffixOf(codec, []) == None && ServersOf(codec, []) == []
  {
  }

  lemma OneMoreLine(codec: Codec, lines: seq<string>, line: string)
    ensures ViewOf(codec, lines + [line]) == Apply(ViewOf(codec, lines), ParseLine(codec, line))
    ensures SuffixOf(codec, lines + [line]) == ApplySuffix(SuffixOf(codec, lines), ParseLine(codec, line))
    ensures var pool, r := ServersOf(codec, lines), ParseLine(codec, line);
            ServersOf(codec, lines + [line])
            == if r.Keep? && r.item.ItemNs? && r.item.host !in pool then pool + [r.item.host] else pool
  {
    hide ParseLine, Apply, ApplySuffix;
    assert (lines + [line])[..|lines|] == lines;
  }

  lemma ParsedZone(zone: Zone, intern: map<string, nat>, v: View)
    requires Shows(zone.records, zone.nsPool, v) && Interned(intern, zone.nsPool)
    ensures zone.Valid() && Resolved(zone) == v
    ensures forall i, j :: 0 <= i < j < |zone.nsPool| ==> zone.nsPool[i] != zone.nsPool[j]
  {
    hide NameRecords.InPool, Resolve;
  }

  /** Inserts an empty record for a name that has none. */
  method EnsureRecord(records: map<string, NameRecords>, name: string, ghost pool: seq<string>, ghost v: View)
    returns (records': map<string, NameRecords>)
    requires Shows(records, pool, v)
    ensures name in records' && Shows(records', pool, v[name := Get(v, name)])
  {
    if name in records {
      records' := records;
      assert v[name := Get(v, name)] == v;
    } else {
      records' := records[name := NameRecords([], [], [])];
    }
  }

  // ---------------------------------------------------------------------- bounded output

  datatype Result = Ok(text: string) | Err(produced: nat)

  /** The output so far is the lines done, it is within the cap, and the rest is still to come. */
  ghost predicate Within(out: string, done: seq<string>, rest: seq<string>, lines: seq<string>, cap: nat) {
    out == Text(done) && done + rest == lines && |Encode(out)| <= cap
  }

  /** The length in bytes after the first line with which the text crosses the cap. */
  ghost predicate CrossesAt(lines: seq<string>, cap: nat, produced: nat) {
    exists k: nat :: k < |lines| && |Encode(Text(lines[..k]))| <= cap < produced == |Encode(Text(lines[..k + 1]))|
  }

  lemma {:induction false} TextConcat(x: seq<string>, y: seq<string>)
    ensures Text(x + y) == Text(x) + Text(y)
  {
    if x == [] {
      assert x + y == y;
    } else {
      TextConcat(x[1..], y);
      assert (x + y)[1..] == x[1..] + y && (x + y)[0] == x[0];
      assert x[0] + "\n" + (Text(x[1..]) + Text(y)) == x[0] + "\n" + Text(x[1..]) + Text(y);
    }
  }

  lemma TextOne(done: seq<string>, line: string)
    ensures Text(done + [line]) == Text(done) + line + "\n"
  {
    TextConcat(done, [line]);
    assert [line][1..] == [] && Text([line]) == line + "\n" + "";
    assert line + "\n" + "" == line + "\n";
    assert Text(done) + (line + "\n") == Text(done) + line + "\n";
  }

  /** writeln, then the check of the length. */
  method Emit(out: string, line: string, cap: nat, ghost done: seq<string>, ghost rest: seq<string>, ghost lines: seq<string>)
    returns (ok: bool, out': string)
    requires Within(out, done, rest, lines, cap) && rest != [] && rest[0] == line
    ensures ok ==> Within(out', done + [line], rest[1..], lines, cap)
    ensures !ok ==> CrossesAt(lines, cap, |Encode(out')|)
  {
    hide Encode, Text;
    out' := out + line + "\n";
    ok := |Encode(out')| <= cap;
    TextOne(done, line);
    assert done + rest == (done + [line]) + rest[1..];
    assert lines[..|done|] == done && lines[..|done| + 1] == done + [line];
  }

  /** The lines still to come: what is left of one name, then the other names. */
  ghost function Left(codec: Codec, name: string, l: Lists, k: nat, tail: seq<string>): seq<string>
    requires k <= |Items(l)|
  {
    LinesFor(codec, name, Items(l))[k..] + tail
  }

  lemma NextLeft(codec: Codec, name: string, l: Lists, k: nat, tail: seq<string>)
    requires k < |Items(l)|
    ensures var rest := Left(codec, name, l, k, tail);
            rest != [] && rest[0] == LineOf(codec, name, Items(l)[k]) && rest[1..] == Left(codec, name, l, k + 1, tail)
  {
    hide LineOf;
  }

  /** The lines of one name, kind by kind. */
  method EmitName(codec: Codec, zone: Zone, name: string, out: string, cap: nat, ghost done: seq<string>,
                  ghost tail: seq<string>, ghost lines: seq<string>)
    returns (ok: bool, out': string)
    requires zone.Valid() && name in zone.records
    requires Within(out, done, LinesFor(codec, name, Items(Resolved(zone)[name])) + tail, lines, cap)
    ensures ok ==> Within(out', done + LinesFor(codec, name, Items(Resolved(zone)[name])), tail, lines, cap)
    ensures !ok ==> CrossesAt(lines, cap, |Encode(out')|)
  {
    hide Encode, LineOf, Within, Left, LinesFor, Items, CrossesAt;
    var rec := zone.records[name];
    ghost var l := Resolve(rec, zone.nsPool);
    ghost var all := LinesFor(codec, name, Items(l));
    out' := out;
    ok := true;
    assert l == Resolved(zone)[name];
    LeftStart(codec, name, l, tail);
    assert all[..0] == [] && done + [] == done;
    for i := 0 to |rec.a|
      invariant Within(out', done + all[..i], Left(codec, name, l, i, tail), lines, cap)
    {
      ItemAt(l, i);
      NextLeft(codec, name, l, i, tail);
      NextDone(codec, name, l, i, done);
      ok, out' := Emit(out', LineOf(codec, name, ItemA(rec.a[i])), cap, done + all[..i], Left(codec, name, l, i, tail), lines);
      if !ok {
        return;
      }
    }
    for i := 0 to |rec.aaaa|
      invariant Within(out', done + all[..|rec.a| + i], Left(codec, name, l, |rec.a| + i, tail), lines, cap)
    {
      ghost var k := |rec.a| + i;
      ItemAt(l, k);
      NextLeft(codec, name, l, k, tail);
      NextDone(codec, name, l, k, done);
      ok, out' := Emit(out', LineOf(codec, name, ItemAaaa(rec.aaaa[i])), cap, done + all[..k], Left(codec, name, l, k, tail), lines);
      if !ok {
        return;
      }
    }
    for i := 0 to |rec.ns|
      invariant Within(out', done + all[..|rec.a| + |rec.aaaa| + i], Left(codec, name, l, |rec.a| + |rec.aaaa| + i, tail), lines, cap)
    {
      ghost var k := |rec.a| + |rec.aaaa| + i;
      ItemAt(l, k);
      NextLeft(codec, name, l, k, tail);
      NextDone(codec, name, l, k, done);
      var host := zone.nsPool[rec.ns[i]];
      ok, out' := Emit(out', LineOf(codec, name, ItemNs(host)), cap, done + all[..k], Left(codec, name, l, k, tail), lines);
      if !ok {
        return;
      }
    }
    ok := true;
    assert all[..|all|] == all;
  }

  lemma NextDone(codec: Codec, name: string, l: Lists, k: nat, done: seq<string>)
    requires k < |Items(l)|
    ensures var all := LinesFor(codec, name, Items(l));
            done + all[..k] + [LineOf(codec, name, Items(l)[k])] == done + all[..k + 1]
  {
    hide LineOf, Items;
  }

  lemma ItemAt(l: Lists, k: nat)
    requires k < |Items(l)|
    ensures Items(l)[k] == if k < |l.a| then ItemA(l.a[k])
                           else if k < |l.a| + |l.aaaa| then ItemAaaa(l.aaaa[k - |l.a|])
                           else ItemNs(l.ns[k - |l.a| - |l.aaaa|])
  {
  }

  lemma LeftStart(codec: Codec, name: string, l: Lists, tail: seq<string>)
    ensures Left(codec, name, l, 0, tail) == LinesFor(codec, name, Items(l)) + tail
    ensures Left(codec, name, l, |Items(l)|, tail) == tail
  {
    hide LineOf, Items;
  }

  /** serialize_bounded: the whole text exactly when its bytes fit the cap, else their number after the first line with
   *  which they do not. */
  method SerializeBounded(codec: Codec, zone: Zone, names: seq<string>, cap: nat) returns (r: Result)
    requires zone.Valid() && forall i :: 0 <= i < |names| ==> names[i] in zone.records
    ensures r.Ok? <==> |Encode(Printed(codec, names, Resolved(zone)))| <= cap
    ensures r.Ok? ==> r.text == Printed(codec, names, Resolved(zone))
    ensures r.Err? ==> CrossesAt(PrintedLines(codec, names, Resolved(zone)), cap, r.produced)
  {
    hide Encode, LineOf, LinesFor, Items, Within, CrossesAt, Zone.Valid;
    ghost var v := Resolved(zone);
    ghost var lines := PrintedLines(codec, names, v);
    var out := "";
    ghost var done: seq<string> := [];
    Start(lines, cap);
    assert names[0..] == names;
    for i := 0 to |names|
      invariant Within(out, done, PrintedLines(codec, names[i..], v), lines, cap)
    {
      assert names[i..][1..] == names[i + 1..];
      KnownName(zone, names[i]);
      var ok;
      ok, out := EmitName(codec, zone, names[i], out, cap, done, PrintedLines(codec, names[i + 1..], v), lines);
      if !ok {
        Crossed(lines, cap, |Encode(out)|);
        return Err(|Encode(out)|);
      }
      done := done + LinesFor(codec, names[i], Items(v[names[i]]));
    }
    Finished(out, done, lines, cap);
    r := Ok(out);
  }

  lemma Crossed(lines: seq<string>, cap: nat, produced: nat)
    requires CrossesAt(lines, cap, produced)
    ensures cap < |Encode(Text(lines))|
  {
    hide Encode, Text;
    var k: nat :| k < |lines| && |Encode(Text(lines[..k]))| <= cap < produced == |Encode(Text(lines[..k + 1]))|;
    assert lines == lines[..k + 1] + lines[k + 1..];
    TextConcat(lines[..k + 1], lines[k + 1..]);
    EncodeConcat(Text(lines[..k + 1]), Text(lines[k + 1..]));
  }

  lemma KnownName(zone: Zone, name: string)
    requires zone.Valid() && name in zone.records
    ensures name in Resolved(zone) && Get(Resolved(zone), name) == Resolved(zone)[name]
  {
  }

  lemma Start(lines: seq<string>, cap: nat)
    ensures Within("", [], lines, lines, cap)
  {
    assert [] + lines == lines;
  }

  lemma Finished(out: string, done: seq<string>, lines: seq<string>, cap: nat)
    requires Within(out, done, [], lines, cap)
    ensures out == Text(lines) && |Encode(Text(lines))| <= cap
  {
    assert done + [] == done;
  }

  // ------------------------------------------------------------------------ the order of names

  /** The order of strings: that of their bytes. */
  predicate Before(x: Bytes, y: Bytes) {
    y != [] && (x == [] || x[0] < y[0] || (x[0] == y[0] && Before(x[1..], y[1..])))
  }

  lemma {:induction false} BeforeTransitive(x: Bytes, y: Bytes, z: Bytes)
    requires !Before(y, x) && !Before(z, y)
    ensures !Before(z, x)
    decreases |x|
  {
    if x != [] && z != [] && y != [] {
      if x[0] == y[0] == z[0] {
        BeforeTransitive(x[1..], y[1..], z[1..]);
      }
    }
  }

  ghost predicate Sorted(names: seq<string>) {
    forall i, j :: 0 <= i < j < |names| ==> !Before(Encode(names[j]), Encode(names[i]))
  }

  lemma SortedInsert(names: seq<string>, k: nat, name: string)
    requires Sorted(names) && k <= |names|
    requires k > 0 ==> !Before(Encode(name), Encode(names[k - 1]))
    requires k < |names| ==> !Before(Encode(names[k]), Encode(name))
    ensures Sorted(names[..k] + [name] + names[k..])
  {
    hide Before, Encode;
    var more := names[..k] + [name] + names[k..];
    forall i, j | 0 <= i < j < |more|
      ensures !Before(Encode(more[j]), Encode(more[i]))
    {
      if j == k && i < k - 1 {
        BeforeTransitive(Encode(names[i]), Encode(names[k - 1]), Encode(name));
      } else if i == k && j > k + 1 {
        BeforeTransitive(Encode(name), Encode(names[k]), Encode(names[j - 1]));
      }
    }
  }

  lemma {:induction false} BeforeTotal(x: Bytes, y: Bytes)
    ensures Before(x, y) ==> !Before(y, x)
    decreases |x|
  {
    if x != [] && y != [] && x[0] == y[0] {
      BeforeTotal(x[1..], y[1..]);
    }
  }

  /** Puts a name where it belongs among sorted ones. */
  method Insert(names: seq<string>, name: string) returns (more: seq<string>)
    requires Sorted(names) && name !in names && forall i, j :: 0 <= i < j < |names| ==> names[i] != names[j]
    ensures Sorted(more) && (forall n :: n in more <==> n in names || n == name)
    ensures forall i, j :: 0 <= i < j < |more| ==> more[i] != more[j]
  {
    hide Before, Encode, Sorted;
    var k := |names|;
    while k > 0 && Before(Encode(name), Encode(names[k - 1]))
      invariant 0 <= k <= |names|
      invariant k < |names| ==> Before(Encode(name), Encode(names[k]))
    {
      k := k - 1;
    }
    if k < |names| {
      BeforeTotal(Encode(name), Encode(names[k]));
    }
    SortedInsert(names, k, name);
    more := names[..k] + [name] + names[k..];
    assert names == names[..k] + names[k..];
  }

  /** The names of a zone in order. */
  method SortedNames(zone: Zone) returns (names: seq<string>)
    requires zone.Valid()
    ensures Sorted(names) && EnumeratesView(names, Resolved(zone))
  {
    hide Sorted, Before, Encode, Resolve, NameRecords.InPool;
    var rest := zone.records.Keys;
    names := [];
    NoNames();
    while rest != {}
      invariant rest <= zone.records.Keys && Sorted(names)
      invariant forall n :: n in names <==> n in zone.records && n !in rest
      invariant forall i, j :: 0 <= i < j < |names| ==> names[i] != names[j]
      decreases |rest|
    {
      var name :| name in rest;
      names := Insert(names, name);
      rest := rest - {name};
    }
  }

  lemma NoNames()
    ensures Sorted([])
  {
  }

  /** What serialize_bounded returns for names in the given order. */
  ghost predicate SerializedAs(codec: Codec, zone: Zone, names: seq<string>, cap: nat, r: Result)
    requires zone.Valid()
  {
    var lines := PrintedLines(codec, names, Resolved(zone));
    if |Encode(Text(lines))| <= cap then r == Ok(Text(lines)) else r.Err? && CrossesAt(lines, cap, r.produced)
  }

  /** serialize_bounded with the names in the order of their bytes. */
  method Serialize(codec: Codec, zone: Zone, cap: nat) returns (r: Result, ghost names: seq<string>)
    requires zone.Valid()
    ensures Sorted(names) && EnumeratesView(names, Resolved(zone)) && SerializedAs(codec, zone, names, cap, r)
  {
    var sorted := SortedNames(zone);
    names := sorted;
    hide Sorted, Encode, CrossesAt, Text, PrintedLines;
    r := SerializeBounded(codec, zone, sorted, cap);
  }

  /** There is but one such order. */
  lemma {:induction false} SortedUnique(x: seq<string>, y: seq<string>)
    requires Sorted(x) && Sorted(y) && (forall n :: n in x <==> n in y)
    requires forall i, j :: 0 <= i < j < |x| ==> x[i] != x[j]
    requires forall i, j :: 0 <= i < j < |y| ==> y[i] != y[j]
    ensures x == y
    decreases |x|
  {
    hide Before, Encode;
    if x == [] {
      HasMember(y);
    } else {
      assert x[0] in y;
      assert y[0] in x;
      if x[0] != y[0] {
        Same(x[0], y[0]);
      }
      forall n
        ensures n in x[1..] <==> n in y[1..]
      {
        Tail(x, n);
        Tail(y, n);
      }
      SortedUnique(x[1..], y[1..]);
    }
  }

  lemma HasMember(y: seq<string>)
    ensures y != [] ==> exists n :: n in y
  {
    if y != [] {
      assert y[0] in y;
    }
  }

  lemma Tail(x: seq<string>, n: string)
    requires x != [] && forall i, j :: 0 <= i < j < |x| ==> x[i] != x[j]
    ensures n in x[1..] <==> n in x && n != x[0]
  {
    if n in x && n != x[0] {
      var i :| 0 <= i < |x| && x[i] == n;
      assert x[1..][i - 1] == n;
    }
  }

  /** Names with the same bytes are the same. */
  lemma Same(a: string, b: string)
    requires !Before(Encode(a), Encode(b)) && !Before(Encode(b), Encode(a))
    ensures a == b
  {
    SameBytes(Encode(a), Encode(b));
    EncodeRoundTrip(a);
    EncodeRoundTrip(b);
  }

  lemma {:induction false} SameBytes(x: Bytes, y: Bytes)
    requires !Before(x, y) && !Before(y, x)
    ensures x == y
    decreases |x|
  {
    if x != [] && y != [] {
      SameBytes(x[1..], y[1..]);
      assert x == [x[0]] + x[1..] && y == [y[0]] + y[1..];
    }
  }

  /** What the program promises of both together: a parsed zone, printed in any order of its names under a cap
   *  that it fits, parses to the same lists for every name with a record, and to the same zone name. */
  method PrintAndParse(codec: Codec, text: string, names: seq<string>, cap: nat) returns (first: Zone, second: Option<Zone>)
    requires codec.Valid() && EnumeratesView(names, ViewOf(codec, SplitLines(text)))
    ensures first.Valid() && Resolved(first) == ViewOf(codec, SplitLines(text))
    ensures second.Some? <==> |Encode(Printed(codec, names, Resolved(first)))| <= cap
    ensures second.Some? ==> second.value.Valid()
                             && Resolved(second.value) == NonEmpty(Resolved(first))
                             && second.value.zoneName == first.zoneName
  {
    hide Codec.Valid, SplitLines, ViewOf, SuffixOf, Printed;
    first := Parse(codec, text);
    TextRoundTrip(codec, text, names);
    var printed := SerializeBounded(codec, first, names, cap);
    if printed.Err? {
      return first, None;
    }
    var again := Parse(codec, printed.text);
    second := Some(again);
  }
}
