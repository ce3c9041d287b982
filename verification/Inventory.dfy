/**
  The inventory listing (cmd/web/inventory.go): spans grouped by kind and subject, addresses projected
  from services and endpoints, a proxy-edge flag carried to addresses, stable sorts, and the window each
  group is shown through.

  `canonical` stands for netip.ParseAddr followed by String: None is a parse error.
*/
module Inventory {
  import opened InventoryLabels
  import opened Sorting
  import opened Text
  import opened Wrappers

  const GROUP_WINDOW: nat := 25

  datatype Subject = Subject(kind: Kind, key: string, facets: seq<FacetRow>, proxyEdge: bool)

  datatype Group = Group(kind: Kind, subjects: seq<Subject>, total: nat, more: nat)

  type Canonical = string -> Option<string>

  // ---------------------------------------------------------------- what the listing must hold

  /** The facets of one subject, in read order. */
  function FacetsOf(rows: seq<Row>, vantages: Vantages, ties: Ties, kind: Kind, key: string): seq<FacetRow> {
    if rows == [] then []
    else
      var last := rows[|rows| - 1];
      FacetsOf(rows[..|rows| - 1], vantages, ties, kind, key)
      + if last.kind == kind && last.key == key then [FacetOf(last, vantages, ties)] else []
  }

  ghost predicate Seen(rows: seq<Row>, kind: Kind, key: string) {
    exists i :: 0 <= i < |rows| && rows[i].kind == kind && rows[i].key == key
  }

  function AfterLastAt(key: string): string {
    match LastIndex(key, '@')
    case None => key
    case Some(i) => if i < |key| then key[i + 1..] else key
  }

  function ServiceHost(key: string): string {
    match LastIndex(key, ':')
    case None => key
    case Some(i) =>
      var host := if i <= |key| then key[..i] else key;
      var open := if host != "" && host[0] == '[' then host[1..] else host;
      if open != "" && open[|open| - 1] == ']' then open[..|open| - 1] else open
  }

  /** The address a service or endpoint key stands at, spelled canonically. */
  function SubjectAddress(canonical: Canonical, kind: Kind, key: string): Option<string> {
    canonical(ServiceHost(if kind.Endpoint? then AfterLastAt(key) else key))
  }

  ghost predicate Behind(rows: seq<Row>, canonical: Canonical, address: string) {
    exists i :: 0 <= i < |rows| && StandsAt(rows[i], canonical, address)
  }

  predicate StandsAt(row: Row, canonical: Canonical, address: string) {
    (row.kind.Service? || row.kind.Endpoint?) && SubjectAddress(canonical, row.kind, row.key) == Some(address)
  }

  predicate ProxyRow(row: Row) {
    row.isGap && row.facet == Reachability && row.blanket
  }

  ghost predicate OwnProxyEdge(rows: seq<Row>, kind: Kind, key: string) {
    exists i :: 0 <= i < |rows| && ProxyRow(rows[i]) && rows[i].kind == kind && rows[i].key == key
  }

  ghost predicate ServiceProxyEdge(rows: seq<Row>, canonical: Canonical, address: string) {
    exists i :: 0 <= i < |rows| && ProxyRow(rows[i]) && rows[i].kind == Service
                && SubjectAddress(canonical, Service, rows[i].key) == Some(address)
  }

  function FacetRank(f: Facet): nat {
    match f
    case Resolution => 0
    case DnsRecord => 1
    case Reachability => 2
    case TlsAcceptance => 3
    case Certificate => 4
    case HttpIdentity => 5
    case OtherFacet(_) => 99
  }

  predicate FacetLeq(a: FacetRow, b: FacetRow) {
    FacetRank(a.facet) <= FacetRank(b.facet)
  }

  /** The facets the page knows, in the order it lists them. */
  const FACET_ORDER: seq<Facet> := [Resolution, DnsRecord, Reachability, TlsAcceptance, Certificate, HttpIdentity]

  lemma FacetOrderReads(a: FacetRow, b: FacetRow)
    ensures forall i, j :: 0 <= i < 6 && 0 <= j < 6 && FACET_ORDER[i] == a.facet && FACET_ORDER[j] == b.facet ==>
              (FacetLeq(a, b) <==> i <= j)
    ensures a.facet.OtherFacet? ==> (FacetLeq(a, b) <==> b.facet.OtherFacet?)
    ensures b.facet.OtherFacet? ==> FacetLeq(a, b)
  {
    forall i | 0 <= i < 6
      ensures FacetRank(FACET_ORDER[i]) == i
    {
    }
  }

  /** The host of a service key: what stands before its last colon, out of its brackets. */
  lemma ServiceHostReads(host: string, port: string)
    requires ':' !in port
    ensures ServiceHost("[" + host + "]:" + port) == host
    ensures host != "" && host[0] != '[' && host[|host| - 1] != ']' ==> ServiceHost(host + ":" + port) == host
    ensures ServiceHost(port) == port
  {
    var bracketed := "[" + host + "]";
    assert bracketed + ":" + port == "[" + host + "]:" + port;
    LastIndexAfter(bracketed, ':', port);
    assert (bracketed + ":" + port)[..|bracketed|] == bracketed;
    assert bracketed[1..] == host + "]";
    assert (host + "]")[..|host|] == host;
    LastIndexAfter(host, ':', port);
    assert (host + ":" + port)[..|host|] == host;
    LastIndexAbsent(port, ':');
  }

  lemma AfterLastAtReads(name: string, rest: string)
    requires '@' !in rest
    ensures AfterLastAt(name + "@" + rest) == rest && AfterLastAt(rest) == rest
  {
    LastIndexAfter(name, '@', rest);
    LastIndexAbsent(rest, '@');
    assert (name + "@" + rest)[|name| + 1..] == rest;
  }

  /** An endpoint stands at the address behind its last '@', a service at its own. */
  lemma SubjectAddressReads(canonical: Canonical, name: string, host: string, port: string)
    requires ':' !in port && '@' !in host && '@' !in port
    ensures var key := "[" + host + "]:" + port;
            && SubjectAddress(canonical, Service, key) == canonical(host)
            && SubjectAddress(canonical, Endpoint, name + "@" + key) == canonical(host)
  {
    ServiceHostReads(host, port);
    AfterLastAtReads(name, "[" + host + "]:" + port);
  }

  /** A subject is listed when a row names it, or when it is an address behind a service or endpoint. */
  ghost predicate Present(rows: seq<Row>, canonical: Canonical, kind: Kind, key: string) {
    Seen(rows, kind, key) || (kind == Address && Behind(rows, canonical, key))
  }

  /** What is listed for a subject: its rows by facet rank, ties in read order, and a flag that an address
      also takes from any service standing at it. */
  ghost function Listed(rows: seq<Row>, vantages: Vantages, ties: Ties, canonical: Canonical, kind: Kind, key: string): Subject {
    Subject(kind, key, Sort(FacetLeq, FacetsOf(rows, vantages, ties, kind, key)),
            OwnProxyEdge(rows, kind, key) || (kind == Address && ServiceProxyEdge(rows, canonical, key)))
  }

  // ---------------------------------------------------------------- totals

  function Total<T>(f: T -> nat, s: seq<T>): nat {
    if s == [] then 0 else Total(f, s[..|s| - 1]) + f(s[|s| - 1])
  }

  function SubjectSize(s: Subject): nat {
    |s.facets|
  }

  function GroupSize(g: Group): nat {
    Total(SubjectSize, g.subjects)
  }

  function FacetCount(groups: seq<Group>): nat {
    Total(GroupSize, groups)
  }

  lemma TotalAppend<T>(f: T -> nat, s: seq<T>, x: T)
    ensures Total(f, s + [x]) == Total(f, s) + f(x)
  {
    assert (s + [x])[..|s|] == s;
  }

  lemma {:induction false} TotalUpdate<T>(f: T -> nat, s: seq<T>, i: nat, x: T)
    requires i < |s|
    ensures Total(f, s[i := x]) + f(s[i]) == Total(f, s) + f(x)
  {
    var n := |s| - 1;
    if i < n {
      TotalUpdate(f, s[..n], i, x);
      assert s[i := x][..n] == s[..n][i := x];
    } else {
      assert s[i := x][..n] == s[..n];
    }
  }

  lemma {:induction false} TotalPointwise<T>(f: T -> nat, s: seq<T>, r: seq<T>)
    requires |s| == |r| && forall i :: 0 <= i < |s| ==> f(s[i]) == f(r[i])
    ensures Total(f, s) == Total(f, r)
  {
    if s != [] {
      TotalPointwise(f, s[..|s| - 1], r[..|r| - 1]);
    }
  }

  lemma {:induction false} TotalInsert<T>(f: T -> nat, leq: (T, T) -> bool, s: seq<T>, x: T)
    ensures Total(f, Insert(leq, s, x)) == Total(f, s) + f(x)
  {
    if s == [] || leq(s[|s| - 1], x) {
      assert Insert(leq, s, x) == s + [x];
      TotalAppend(f, s, x);
    } else {
      TotalInsert(f, leq, s[..|s| - 1], x);
      TotalAppend(f, Insert(leq, s[..|s| - 1], x), s[|s| - 1]);
    }
  }

  lemma {:induction false} TotalSort<T>(f: T -> nat, leq: (T, T) -> bool, s: seq<T>)
    ensures Total(f, Sort(leq, s)) == Total(f, s)
  {
    if s != [] {
      TotalSort(f, leq, s[..|s| - 1]);
      TotalInsert(f, leq, Sort(leq, s[..|s| - 1]), s[|s| - 1]);
    }
  }

  // ---------------------------------------------------------------- the grouping table

  /** The groups being built, with where each kind and each subject sits. */
  datatype Table = Table(groups: seq<Group>, groupIdx: map<Kind, nat>, subjectIdx: map<(Kind, string), nat>)

  ghost predicate GroupIndexed(t: Table, gi: nat)
    requires gi < |t.groups|
  {
    var g := t.groups[gi];
    g.kind in t.groupIdx && t.groupIdx[g.kind] == gi && g.subjects != []
  }

  ghost predicate SubjectIndexed(t: Table, gi: nat, si: nat)
    requires gi < |t.groups| && si < |t.groups[gi].subjects|
  {
    var s := t.groups[gi].subjects[si];
    s.kind == t.groups[gi].kind && (s.kind, s.key) in t.subjectIdx && t.subjectIdx[(s.kind, s.key)] == si
  }

  ghost predicate KindIndexed(t: Table, kind: Kind) {
    kind in t.groupIdx ==> t.groupIdx[kind] < |t.groups| && t.groups[t.groupIdx[kind]].kind == kind
  }

  ghost predicate KeyIndexed(t: Table, kind: Kind, key: string) {
    (kind, key) in t.subjectIdx ==>
      && kind in t.groupIdx && t.groupIdx[kind] < |t.groups|
      && t.subjectIdx[(kind, key)] < |t.groups[t.groupIdx[kind]].subjects|
      && t.groups[t.groupIdx[kind]].subjects[t.subjectIdx[(kind, key)]].kind == kind
      && t.groups[t.groupIdx[kind]].subjects[t.subjectIdx[(kind, key)]].key == key
  }

  /** The two index maps and the lists they point into agree, in both directions. */
  ghost predicate Indexed(t: Table) {
    && (forall gi: nat :: gi < |t.groups| ==> GroupIndexed(t, gi))
    && (forall gi: nat, si: nat :: gi < |t.groups| && si < |t.groups[gi].subjects| ==> SubjectIndexed(t, gi, si))
    && (forall kind :: KindIndexed(t, kind))
    && (forall kind, key :: KeyIndexed(t, kind, key))
  }

  ghost function Lookup(t: Table, kind: Kind, key: string): Option<Subject>
    requires KeyIndexed(t, kind, key)
  {
    if (kind, key) in t.subjectIdx then Some(t.groups[t.groupIdx[kind]].subjects[t.subjectIdx[(kind, key)]]) else None
  }

  /** `after` holds exactly what `before` does, but for `s`, which sits under its own kind and key. */
  ghost predicate Puts(before: Table, after: Table, s: Subject)
    requires Indexed(before) && Indexed(after)
  {
    forall kind, key ::
      Lookup(after, kind, key) == if kind == s.kind && key == s.key then Some(s) else Lookup(before, kind, key)
  }

  // ---- the three ways the tables change

  function OpenGroup(t: Table, s: Subject): Table {
    Table(t.groups + [Group(s.kind, [s], 0, 0)], t.groupIdx[s.kind := |t.groups|], t.subjectIdx[(s.kind, s.key) := 0])
  }

  function AddSubject(t: Table, gi: nat, s: Subject): Table
    requires gi < |t.groups|
  {
    var g := t.groups[gi];
    Table(t.groups[gi := g.(subjects := g.subjects + [s])], t.groupIdx, t.subjectIdx[(s.kind, s.key) := |g.subjects|])
  }

  function ReplaceSubject(t: Table, gi: nat, si: nat, s: Subject): Table
    requires gi < |t.groups| && si < |t.groups[gi].subjects|
  {
    var g := t.groups[gi];
    Table(t.groups[gi := g.(subjects := g.subjects[si := s])], t.groupIdx, t.subjectIdx)
  }

  lemma OpenGroupIndexed(t: Table, s: Subject)
    requires Indexed(t) && s.kind !in t.groupIdx
    ensures Indexed(OpenGroup(t, s)) && Puts(t, OpenGroup(t, s), s)
    ensures FacetCount(OpenGroup(t, s).groups) == FacetCount(t.groups) + |s.facets|
  {
    var r := OpenGroup(t, s);
    forall gi: nat | gi < |r.groups|
      ensures GroupIndexed(r, gi)
    {
      assert gi < |t.groups| ==> GroupIndexed(t, gi);
    }
    forall gi: nat, si: nat | gi < |r.groups| && si < |r.groups[gi].subjects|
      ensures SubjectIndexed(r, gi, si)
    {
      assert gi < |t.groups| ==> GroupIndexed(t, gi) && SubjectIndexed(t, gi, si);
    }
    forall kind
      ensures KindIndexed(r, kind)
    {
      assert KindIndexed(t, kind);
    }
    forall kind, key
      ensures KeyIndexed(r, kind, key)
    {
      assert KeyIndexed(t, kind, key);
    }
    forall kind, key
      ensures Lookup(r, kind, key) == if kind == s.kind && key == s.key then Some(s) else Lookup(t, kind, key)
    {
      assert KeyIndexed(t, kind, key) && KeyIndexed(r, kind, key);
    }
    TotalAppend(GroupSize, t.groups, Group(s.kind, [s], 0, 0));
    TotalAppend(SubjectSize, [], s);
    assert [] + [s] == [s];
  }

  lemma AddSubjectIndexed(t: Table, s: Subject)
    requires Indexed(t) && s.kind in t.groupIdx && KindIndexed(t, s.kind) && (s.kind, s.key) !in t.subjectIdx
    ensures var r := AddSubject(t, t.groupIdx[s.kind], s);
            Indexed(r) && Puts(t, r, s) && FacetCount(r.groups) == FacetCount(t.groups) + |s.facets|
  {
    var here := t.groupIdx[s.kind];
    var g := t.groups[here];
    var r := AddSubject(t, here, s);
    forall gi: nat | gi < |r.groups|
      ensures GroupIndexed(r, gi)
    {
      assert GroupIndexed(t, gi);
    }
    forall gi: nat, si: nat | gi < |r.groups| && si < |r.groups[gi].subjects|
      ensures SubjectIndexed(r, gi, si)
    {
      assert GroupIndexed(t, gi);
      assert si < |t.groups[gi].subjects| ==> SubjectIndexed(t, gi, si);
    }
    forall kind
      ensures KindIndexed(r, kind)
    {
      assert KindIndexed(t, kind);
    }
    forall kind, key
      ensures KeyIndexed(r, kind, key)
    {
      assert KeyIndexed(t, kind, key);
    }
    forall kind, key
      ensures Lookup(r, kind, key) == if kind == s.kind && key == s.key then Some(s) else Lookup(t, kind, key)
    {
      assert KeyIndexed(t, kind, key) && KeyIndexed(r, kind, key);
    }
    TotalAppend(SubjectSize, g.subjects, s);
    TotalUpdate(GroupSize, t.groups, here, r.groups[here]);
  }

  lemma ReplaceSubjectIndexed(t: Table, s: Subject)
    requires Indexed(t) && (s.kind, s.key) in t.subjectIdx && KeyIndexed(t, s.kind, s.key)
    ensures var gi, si := t.groupIdx[s.kind], t.subjectIdx[(s.kind, s.key)];
            var r := ReplaceSubject(t, gi, si, s);
            && Indexed(r) && Puts(t, r, s)
            && FacetCount(r.groups) + |t.groups[gi].subjects[si].facets| == FacetCount(t.groups) + |s.facets|
  {
    var here, at := t.groupIdx[s.kind], t.subjectIdx[(s.kind, s.key)];
    var g := t.groups[here];
    var r := ReplaceSubject(t, here, at, s);
    assert GroupIndexed(t, here);
    assert SubjectIndexed(t, here, at);
    forall gi: nat | gi < |r.groups|
      ensures GroupIndexed(r, gi)
    {
      assert GroupIndexed(t, gi);
    }
    forall gi: nat, si: nat | gi < |r.groups| && si < |r.groups[gi].subjects|
      ensures SubjectIndexed(r, gi, si)
    {
      assert SubjectIndexed(t, gi, si);
    }
    forall kind
      ensures KindIndexed(r, kind)
    {
      assert KindIndexed(t, kind);
    }
    forall kind, key
      ensures KeyIndexed(r, kind, key)
    {
      assert KeyIndexed(t, kind, key);
    }
    forall kind, key
      ensures Lookup(r, kind, key) == if kind == s.kind && key == s.key then Some(s) else Lookup(t, kind, key)
    {
      assert KeyIndexed(t, kind, key) && KeyIndexed(r, kind, key);
      assert kind in t.groupIdx && t.groupIdx[kind] == here ==> kind == s.kind by { assert KindIndexed(t, kind); }
    }
    TotalUpdate(SubjectSize, g.subjects, at, s);
    TotalUpdate(GroupSize, t.groups, here, r.groups[here]);
  }

  /** Give a subject the tables do not hold a place, opening its kind's group if it is the first of it. */
  method Admit(t: Table, kind: Kind, key: string) returns (r: Table)
    requires Indexed(t) && (kind, key) !in t.subjectIdx
    ensures Indexed(r) && Puts(t, r, Subject(kind, key, [], false))
    ensures FacetCount(r.groups) == FacetCount(t.groups)
  {
    var s := Subject(kind, key, [], false);
    if kind !in t.groupIdx {
      r := OpenGroup(t, s);
      OpenGroupIndexed(t, s);
    } else {
      assert KindIndexed(t, kind);
      r := AddSubject(t, t.groupIdx[kind], s);
      AddSubjectIndexed(t, s);
    }
  }

  ghost function SubjectOf(rows: seq<Row>, vantages: Vantages, ties: Ties, kind: Kind, key: string): Option<Subject> {
    if Seen(rows, kind, key) then Some(Subject(kind, key, FacetsOf(rows, vantages, ties, kind, key), false)) else None
  }

  ghost predicate Holds(t: Table, rows: seq<Row>, vantages: Vantages, ties: Ties, kind: Kind, key: string)
    requires Indexed(t)
  {
    assert KeyIndexed(t, kind, key);
    Lookup(t, kind, key) == SubjectOf(rows, vantages, ties, kind, key)
  }

  /** The tables hold one subject for each kind and key the rows name, with that subject's facets. */
  ghost predicate Groups(t: Table, rows: seq<Row>, vantages: Vantages, ties: Ties) {
    Indexed(t) && forall kind, key :: Holds(t, rows, vantages, ties, kind, key)
  }

  /** What a subject holds before its first facet. */
  ghost function OrNew(found: Option<Subject>, kind: Kind, key: string): Subject {
    if found.Some? then found.value else Subject(kind, key, [], false)
  }

  /** Append one facet to its subject, admitting the subject if it is new. */
  method AddFacet(t: Table, kind: Kind, key: string, facet: FacetRow) returns (r: Table)
    requires Indexed(t) && KeyIndexed(t, kind, key)
    ensures Indexed(r) && FacetCount(r.groups) == FacetCount(t.groups) + 1
    ensures var s := OrNew(Lookup(t, kind, key), kind, key);
            s.kind == kind && s.key == key && Puts(t, r, s.(facets := s.facets + [facet]))
  {
    r := t;
    if (kind, key) !in t.subjectIdx {
      r := Admit(t, kind, key);
    }
    assert KeyIndexed(r, kind, key) && Lookup(r, kind, key) == Some(OrNew(Lookup(t, kind, key), kind, key));
    var gi, si := r.groupIdx[kind], r.subjectIdx[(kind, key)];
    var s := r.groups[gi].subjects[si];
    ghost var admitted, grown := r, s.(facets := s.facets + [facet]);
    ReplaceSubjectIndexed(r, grown);
    r := ReplaceSubject(r, gi, si, s.(facets := s.facets + [facet]));
    PutTwice(t, admitted, r, s, grown);
  }

  lemma PutTwice(t: Table, admitted: Table, r: Table, s: Subject, grown: Subject)
    requires Indexed(t) && Indexed(admitted) && Indexed(r)
    requires admitted == t || Puts(t, admitted, s)
    requires Puts(admitted, r, grown) && grown.kind == s.kind && grown.key == s.key
    ensures Puts(t, r, grown)
  {
    forall kind, key
      ensures Lookup(r, kind, key) == if kind == grown.kind && key == grown.key then Some(grown) else Lookup(t, kind, key)
    {
      assert KeyIndexed(t, kind, key) && KeyIndexed(admitted, kind, key) && KeyIndexed(r, kind, key);
    }
  }

  method GroupRows(rows: seq<Row>, vantages: Vantages, ties: Ties) returns (t: Table)
    ensures Groups(t, rows, vantages, ties)
    ensures FacetCount(t.groups) == |rows|
  {
    t := Table([], map[], map[]);
    for i := 0 to |rows|
      invariant Groups(t, rows[..i], vantages, ties)
      invariant FacetCount(t.groups) == i
    {
      ghost var before := t;
      assert KeyIndexed(t, rows[i].kind, rows[i].key);
      t := AddFacet(t, rows[i].kind, rows[i].key, FacetOf(rows[i], vantages, ties));
      GroupsGrow(rows, i, vantages, ties, before, t);
    }
    assert rows[..|rows|] == rows;
  }

  lemma SeenGrows(rows: seq<Row>, i: nat, kind: Kind, key: string)
    requires i < |rows|
    ensures Seen(rows[..i + 1], kind, key) <==> Seen(rows[..i], kind, key) || (rows[i].kind == kind && rows[i].key == key)
  {
    var longer := rows[..i + 1];
    assert longer[i] == rows[i];
    forall j | 0 <= j < i
      ensures longer[j] == rows[..i][j]
    {
    }
  }

  lemma {:induction false} UnseenHasNoFacets(rows: seq<Row>, vantages: Vantages, ties: Ties, kind: Kind, key: string)
    requires !Seen(rows, kind, key)
    ensures FacetsOf(rows, vantages, ties, kind, key) == []
  {
    if rows != [] {
      var n := |rows| - 1;
      assert rows[..n + 1] == rows;
      SeenGrows(rows, n, kind, key);
      UnseenHasNoFacets(rows[..n], vantages, ties, kind, key);
    }
  }

  lemma FacetsGrow(rows: seq<Row>, i: nat, vantages: Vantages, ties: Ties, kind: Kind, key: string)
    requires i < |rows|
    ensures var held := FacetsOf(rows[..i], vantages, ties, kind, key);
            FacetsOf(rows[..i + 1], vantages, ties, kind, key)
            == if rows[i].kind == kind && rows[i].key == key then held + [FacetOf(rows[i], vantages, ties)] else held
  {
    var longer, held := rows[..i + 1], FacetsOf(rows[..i], vantages, ties, kind, key);
    assert longer[..i] == rows[..i] && longer[i] == rows[i];
    assert held + [] == held;
  }

  lemma GroupsGrow(rows: seq<Row>, i: nat, vantages: Vantages, ties: Ties, before: Table, after: Table)
    requires i < |rows|
    requires Groups(before, rows[..i], vantages, ties) && Indexed(after) && KeyIndexed(before, rows[i].kind, rows[i].key)
    requires var s := OrNew(Lookup(before, rows[i].kind, rows[i].key), rows[i].kind, rows[i].key);
             Puts(before, after, s.(facets := s.facets + [FacetOf(rows[i], vantages, ties)]))
    ensures Groups(after, rows[..i + 1], vantages, ties)
  {
    var row, longer := rows[i], rows[..i + 1];
    assert Holds(before, rows[..i], vantages, ties, row.kind, row.key);
    if Lookup(before, row.kind, row.key).None? {
      UnseenHasNoFacets(rows[..i], vantages, ties, row.kind, row.key);
    }
    forall kind, key
      ensures Holds(after, longer, vantages, ties, kind, key)
    {
      assert Holds(before, rows[..i], vantages, ties, kind, key);
      assert KeyIndexed(before, kind, key) && KeyIndexed(after, kind, key);
      SeenGrows(rows, i, kind, key);
      FacetsGrow(rows, i, vantages, ties, kind, key);
    }
  }

  // ---------------------------------------------------------------- projected addresses

  predicate StandsBehind(s: Subject, canonical: Canonical, address: string) {
    (s.kind.Service? || s.kind.Endpoint?) && SubjectAddress(canonical, s.kind, s.key) == Some(address)
  }

  ghost predicate GroupBehind(g: Group, n: nat, canonical: Canonical, address: string)
    requires n <= |g.subjects|
  {
    (g.kind.Service? || g.kind.Endpoint?)
    && exists si :: 0 <= si < n && SubjectAddress(canonical, g.subjects[si].kind, g.subjects[si].key) == Some(address)
  }

  ghost predicate GroupsBehind(groups: seq<Group>, n: nat, canonical: Canonical, address: string)
    requires n <= |groups|
  {
    exists gi :: 0 <= gi < n && GroupBehind(groups[gi], |groups[gi].subjects|, canonical, address)
  }

  method AddressKeys(groups: seq<Group>, canonical: Canonical) returns (keys: seq<string>)
    ensures forall a :: a in keys <==> GroupsBehind(groups, |groups|, canonical, a)
  {
    keys := [];
    for gi := 0 to |groups|
      invariant forall a :: a in keys <==> GroupsBehind(groups, gi, canonical, a)
    {
      var g := groups[gi];
      ghost var before := keys;
      if g.kind.Service? || g.kind.Endpoint? {
        for si := 0 to |g.subjects|
          invariant forall a :: a in keys <==> a in before || GroupBehind(g, si, canonical, a)
        {
          var address := SubjectAddress(canonical, g.subjects[si].kind, g.subjects[si].key);
          if address.Some? {
            keys := keys + [address.value];
          }
        }
      }
    }
  }

  ghost predicate Projected(t: Table, r: Table, addresses: seq<string>, kind: Kind, key: string)
    requires Indexed(t) && Indexed(r)
  {
    assert KeyIndexed(t, kind, key) && KeyIndexed(r, kind, key);
    Lookup(r, kind, key) ==
    if kind == Address && Lookup(t, kind, key).None? && key in addresses then Some(Subject(Address, key, [], false))
    else Lookup(t, kind, key)
  }

  /** Each address behind a service or endpoint gets one subject without facets, unless it has one already;
      no other subject changes. */
  method ProjectAddresses(t: Table, canonical: Canonical) returns (r: Table, ghost keys: seq<string>)
    requires Indexed(t)
    ensures Indexed(r) && FacetCount(r.groups) == FacetCount(t.groups)
    ensures forall kind, key :: Projected(t, r, keys, kind, key)
    ensures forall a :: a in keys <==> GroupsBehind(t.groups, |t.groups|, canonical, a)
  {
    var addresses := AddressKeys(t.groups, canonical);
    keys := addresses;
    r := t;
    for j := 0 to |addresses|
      invariant Indexed(r) && FacetCount(r.groups) == FacetCount(t.groups)
      invariant forall kind, key :: Projected(t, r, addresses[..j], kind, key)
    {
      ghost var before := r;
      var key := addresses[j];
      if (Address, key) !in r.subjectIdx {
        r := Admit(r, Address, key);
      }
      ProjectionGrows(t, before, r, addresses[..j], addresses[..j + 1], key);
    }
    assert addresses[..|addresses|] == addresses;
  }

  lemma ProjectionGrows(t: Table, before: Table, after: Table, shorter: seq<string>, longer: seq<string>, address: string)
    requires Indexed(t) && Indexed(before) && Indexed(after) && longer == shorter + [address]
    requires forall kind, key :: Projected(t, before, shorter, kind, key)
    requires if (Address, address) in before.subjectIdx then after == before
             else Puts(before, after, Subject(Address, address, [], false))
    ensures forall kind, key :: Projected(t, after, longer, kind, key)
  {
    assert KeyIndexed(before, Address, address) && Projected(t, before, shorter, Address, address);
    forall kind, key
      ensures Projected(t, after, longer, kind, key)
    {
      assert Projected(t, before, shorter, kind, key);
      assert KeyIndexed(t, kind, key) && KeyIndexed(before, kind, key) && KeyIndexed(after, kind, key);
    }
  }

  // ---------------------------------------------------------------- sorting and flagging one group

  predicate AnyProxyEdge(facets: seq<FacetRow>) {
    exists i :: 0 <= i < |facets| && facets[i].proxyEdge
  }

  function LeadingFacet(s: Subject): FacetRow {
    if s.facets == [] then FacetRow("", false, false, "", OtherFacet("")) else s.facets[0]
  }

  /** lessInventorySubject: gaps last, then the newest leading facet, then the key. */
  predicate SubjectLess(a: Subject, b: Subject) {
    var af, bf := LeadingFacet(a), LeadingFacet(b);
    if af.isGap != bf.isGap then !af.isGap
    else if af.since != bf.since then !StrLeq(af.since, bf.since)
    else !StrLeq(b.key, a.key)
  }

  predicate SubjectLeq(a: Subject, b: Subject) {
    !SubjectLess(b, a)
  }

  /** A subject whose first facet is a Gap comes after one whose first is none; then the one whose first
      facet is the newer comes first, one without facets counting as the oldest; then the smaller key. */
  lemma SubjectOrderReads(a: Subject, b: Subject)
    ensures var aGap, bGap := a.facets != [] && a.facets[0].isGap, b.facets != [] && b.facets[0].isGap;
            var aSince := if a.facets == [] then "" else a.facets[0].since;
            var bSince := if b.facets == [] then "" else b.facets[0].since;
            SubjectLeq(a, b) <==>
              || (!aGap && bGap)
              || (aGap == bGap && aSince != bSince && StrLeq(bSince, aSince))
              || (aGap == bGap && aSince == bSince && StrLeq(a.key, b.key))
  {
    StringOrderIsTotal();
  }

  lemma SubjectOrderIsPreorder()
    ensures Preorder(SubjectLeq)
  {
    StringOrderIsTotal();
  }

  function FinishSubject(s: Subject): Subject {
    s.(facets := Sort(FacetLeq, s.facets), proxyEdge := s.proxyEdge || AnyProxyEdge(s.facets))
  }

  function FinishSubjects(subjects: seq<Subject>): seq<Subject> {
    seq(|subjects|, i requires 0 <= i < |subjects| => FinishSubject(subjects[i]))
  }

  function FinishGroup(g: Group): Group {
    Group(g.kind, Sort(SubjectLeq, FinishSubjects(g.subjects)), |g.subjects|, 0)
  }

  lemma SortedFacets(facets: seq<FacetRow>)
    ensures SortedBy(FacetLeq, Sort(FacetLeq, facets)) && multiset(Sort(FacetLeq, facets)) == multiset(facets)
    ensures |Sort(FacetLeq, facets)| == |facets|
    ensures AnyProxyEdge(Sort(FacetLeq, facets)) <==> AnyProxyEdge(facets)
  {
    var r := Sort(FacetLeq, facets);
    SortSorts(FacetLeq, facets);
    assert |multiset(r)| == |multiset(facets)|;
    SameMembers(r, facets);
    SameMembers(facets, r);
  }

  lemma SameMembers(a: seq<FacetRow>, b: seq<FacetRow>)
    requires multiset(a) == multiset(b)
    ensures AnyProxyEdge(a) ==> AnyProxyEdge(b)
  {
    if AnyProxyEdge(a) {
      var i :| 0 <= i < |a| && a[i].proxyEdge;
      assert a[i] in multiset(b);
      var j :| 0 <= j < |b| && b[j] == a[i];
    }
  }

  function OfRank(facets: seq<FacetRow>, rank: nat): seq<FacetRow> {
    if facets == [] then []
    else
      var last := facets[|facets| - 1];
      OfRank(facets[..|facets| - 1], rank) + if FacetRank(last.facet) == rank then [last] else []
  }

  lemma {:induction false} InsertKeepsTies(facets: seq<FacetRow>, x: FacetRow, rank: nat)
    ensures OfRank(Insert(FacetLeq, facets, x), rank)
         == OfRank(facets, rank) + if FacetRank(x.facet) == rank then [x] else []
  {
    var r := Insert(FacetLeq, facets, x);
    if facets == [] {
      assert OfRank(r[..0], rank) == [];
    } else {
      var prev, last := facets[..|facets| - 1], facets[|facets| - 1];
      if FacetLeq(last, x) {
        assert r[..|r| - 1] == facets;
      } else {
        InsertKeepsTies(prev, x, rank);
        assert r[..|r| - 1] == Insert(FacetLeq, prev, x);
        assert OfRank(prev, rank) + [] == OfRank(prev, rank);
      }
    }
  }

  /** Facets of one rank stay in read order: what pins a service's two vantage rows. */
  lemma {:induction false} TiesStayInReadOrder(facets: seq<FacetRow>, rank: nat)
    ensures OfRank(Sort(FacetLeq, facets), rank) == OfRank(facets, rank)
  {
    if facets != [] {
      TiesStayInReadOrder(facets[..|facets| - 1], rank);
      InsertKeepsTies(Sort(FacetLeq, facets[..|facets| - 1]), facets[|facets| - 1], rank);
    }
  }

  /** Sort one subject's facets and flag it when one of them is flagged. */
  method SortSubject(s: Subject) returns (r: Subject)
    requires !s.proxyEdge
    ensures r == FinishSubject(s)
  {
    var facets := Sort(FacetLeq, s.facets);
    SortedFacets(s.facets);
    r := s.(facets := facets);
    for i := 0 to |facets|
      invariant r == s.(facets := facets)
      invariant forall k :: 0 <= k < i ==> !facets[k].proxyEdge
    {
      if facets[i].proxyEdge {
        r := r.(proxyEdge := true);
        assert AnyProxyEdge(facets);
        return;
      }
    }
  }

  method SortGroup(g: Group) returns (h: Group)
    requires forall si :: 0 <= si < |g.subjects| ==> !g.subjects[si].proxyEdge
    ensures h == FinishGroup(g)
  {
    var subjects := g.subjects;
    for si := 0 to |subjects|
      invariant |subjects| == |g.subjects|
      invariant forall k :: 0 <= k < si ==> subjects[k] == FinishSubject(g.subjects[k])
      invariant forall k :: si <= k < |subjects| ==> subjects[k] == g.subjects[k]
    {
      var s := SortSubject(subjects[si]);
      subjects := subjects[si := s];
    }
    assert subjects == FinishSubjects(g.subjects);
    h := Group(g.kind, Sort(SubjectLeq, subjects), |subjects|, 0);
  }

  method SortGroups(groups: seq<Group>) returns (out: seq<Group>)
    requires forall gi, si :: 0 <= gi < |groups| && 0 <= si < |groups[gi].subjects| ==> !groups[gi].subjects[si].proxyEdge
    ensures |out| == |groups| && forall gi :: 0 <= gi < |out| ==> out[gi] == FinishGroup(groups[gi])
  {
    out := groups;
    for gi := 0 to |groups|
      invariant |out| == |groups|
      invariant forall k :: 0 <= k < gi ==> out[k] == FinishGroup(groups[k])
      invariant forall k :: gi <= k < |out| ==> out[k] == groups[k]
    {
      var h := SortGroup(out[gi]);
      out := out[gi := h];
    }
  }

  // ---------------------------------------------------------------- the flag carried to addresses

  predicate ProxyServiceAt(s: Subject, canonical: Canonical, address: string) {
    s.proxyEdge && SubjectAddress(canonical, s.kind, s.key) == Some(address)
  }

  ghost predicate ProxyAt(groups: seq<Group>, n: nat, canonical: Canonical, address: string)
    requires n <= |groups|
  {
    exists gi :: 0 <= gi < n && groups[gi].kind == Service && ProxyIn(groups[gi], |groups[gi].subjects|, canonical, address)
  }

  ghost predicate ProxyIn(g: Group, n: nat, canonical: Canonical, address: string)
    requires n <= |g.subjects|
  {
    exists si :: 0 <= si < n && ProxyServiceAt(g.subjects[si], canonical, address)
  }

  method ProxyAddresses(groups: seq<Group>, canonical: Canonical) returns (addresses: set<string>)
    ensures forall a :: a in addresses <==> ProxyAt(groups, |groups|, canonical, a)
  {
    addresses := {};
    for gi := 0 to |groups|
      invariant forall a :: a in addresses <==> ProxyAt(groups, gi, canonical, a)
    {
      var g := groups[gi];
      ghost var before := addresses;
      if g.kind == Service {
        for si := 0 to |g.subjects|
          invariant forall a :: a in addresses <==> a in before || ProxyIn(g, si, canonical, a)
        {
          var address := SubjectAddress(canonical, g.subjects[si].kind, g.subjects[si].key);
          if g.subjects[si].proxyEdge && address.Some? {
            addresses := addresses + {address.value};
          }
        }
      }
    }
  }

  function LiftSubject(kind: Kind, s: Subject, addresses: set<string>): Subject {
    if kind == Address && s.key in addresses then s.(proxyEdge := true) else s
  }

  ghost predicate Lifted(g: Group, h: Group, addresses: set<string>) {
    && h == g.(subjects := h.subjects) && |h.subjects| == |g.subjects|
    && forall si :: 0 <= si < |h.subjects| ==> h.subjects[si] == LiftSubject(g.kind, g.subjects[si], addresses)
  }

  method LiftGroup(g: Group, addresses: set<string>) returns (h: Group)
    ensures Lifted(g, h, addresses)
  {
    if g.kind != Address {
      return g;
    }
    var subjects := g.subjects;
    for si := 0 to |subjects|
      invariant |subjects| == |g.subjects|
      invariant forall k :: 0 <= k < si ==> subjects[k] == LiftSubject(g.kind, g.subjects[k], addresses)
      invariant forall k :: si <= k < |subjects| ==> subjects[k] == g.subjects[k]
    {
      if subjects[si].key in addresses {
        subjects := subjects[si := subjects[si].(proxyEdge := true)];
      }
    }
    h := g.(subjects := subjects);
  }

  method PropagateProxyEdge(groups: seq<Group>, canonical: Canonical) returns (out: seq<Group>, ghost addresses: set<string>)
    ensures forall a :: a in addresses <==> ProxyAt(groups, |groups|, canonical, a)
    ensures |out| == |groups| && forall gi :: 0 <= gi < |out| ==> Lifted(groups[gi], out[gi], addresses)
  {
    var proxyAddrs := ProxyAddresses(groups, canonical);
    addresses := proxyAddrs;
    out := groups;
    if proxyAddrs == {} {
      return;
    }
    for gi := 0 to |groups|
      invariant |out| == |groups|
      invariant forall k :: 0 <= k < gi ==> Lifted(groups[k], out[k], addresses)
      invariant forall k :: gi <= k < |out| ==> out[k] == groups[k]
    {
      var h := LiftGroup(out[gi], proxyAddrs);
      out := out[gi := h];
    }
  }

  // ---------------------------------------------------------------- the whole listing

  function KindRank(k: Kind): nat {
    match k
    case Name => 0
    case Service => 1
    case Endpoint => 2
    case Address => 3
    case OtherKind(_) => 99
  }

  predicate GroupLeq(a: Group, b: Group) {
    KindRank(a.kind) <= KindRank(b.kind)
  }

  /** The kinds the page knows, in the order it lists their groups. */
  const KIND_ORDER: seq<Kind> := [Name, Service, Endpoint, Address]

  lemma GroupOrderReads(a: Group, b: Group)
    ensures forall i, j :: 0 <= i < 4 && 0 <= j < 4 && KIND_ORDER[i] == a.kind && KIND_ORDER[j] == b.kind ==>
              (GroupLeq(a, b) <==> i <= j)
    ensures a.kind.OtherKind? ==> (GroupLeq(a, b) <==> b.kind.OtherKind?)
    ensures b.kind.OtherKind? ==> GroupLeq(a, b)
  {
    forall i | 0 <= i < 4
      ensures KindRank(KIND_ORDER[i]) == i
    {
    }
  }

  ghost predicate Lists(groups: seq<Group>, s: Subject) {
    exists gi :: 0 <= gi < |groups| && s in groups[gi].subjects
  }

  ghost predicate DistinctKinds(groups: seq<Group>) {
    forall i, j :: 0 <= i < j < |groups| ==> groups[i].kind != groups[j].kind
  }

  ghost predicate DistinctKeys(subjects: seq<Subject>) {
    forall i, j :: 0 <= i < j < |subjects| ==> subjects[i].key != subjects[j].key
  }

  /** One group's subjects: at least one, each of the group's kind, each key once. */
  ghost predicate OneOfEach(g: Group) {
    && g.subjects != [] && DistinctKeys(g.subjects)
    && forall si :: 0 <= si < |g.subjects| ==> g.subjects[si].kind == g.kind
  }

  /** A finished group: also in order, counted whole and not yet windowed. */
  ghost predicate Finished(g: Group) {
    OneOfEach(g) && SortedBy(SubjectLeq, g.subjects) && g.total == |g.subjects| && g.more == 0
  }

  /** Sorting by any order keeps subjects with distinct keys distinct. */
  lemma SortKeepsKeys(s: seq<Subject>, r: seq<Subject>)
    requires DistinctKeys(s) && multiset(s) == multiset(r)
    ensures DistinctKeys(r)
  {
    PermutationKeepsDistinct(s, r);
    forall i, j | 0 <= i < j < |r|
      ensures r[i].key != r[j].key
    {
      assert r[i] in multiset(s) && r[j] in multiset(s);
      var p :| 0 <= p < |s| && s[p] == r[i];
      var q :| 0 <= q < |s| && s[q] == r[j];
    }
  }

  lemma SortKeepsKinds(s: seq<Group>, r: seq<Group>)
    requires DistinctKinds(s) && multiset(s) == multiset(r)
    ensures DistinctKinds(r)
  {
    PermutationKeepsDistinct(s, r);
    forall i, j | 0 <= i < j < |r|
      ensures r[i].kind != r[j].kind
    {
      assert r[i] in multiset(s) && r[j] in multiset(s);
      var p :| 0 <= p < |s| && s[p] == r[i];
      var q :| 0 <= q < |s| && s[q] == r[j];
    }
  }

  lemma TableIsDistinct(t: Table)
    requires Indexed(t)
    ensures DistinctKinds(t.groups) && forall gi :: 0 <= gi < |t.groups| ==> OneOfEach(t.groups[gi])
  {
    forall gi, gj | 0 <= gi < gj < |t.groups|
      ensures t.groups[gi].kind != t.groups[gj].kind
    {
      assert GroupIndexed(t, gi) && GroupIndexed(t, gj);
    }
    forall gi | 0 <= gi < |t.groups|
      ensures OneOfEach(t.groups[gi])
    {
      assert GroupIndexed(t, gi);
      var subjects := t.groups[gi].subjects;
      forall si | 0 <= si < |subjects|
        ensures subjects[si].kind == t.groups[gi].kind
      {
        assert SubjectIndexed(t, gi, si);
      }
      forall i, j | 0 <= i < j < |subjects|
        ensures subjects[i].key != subjects[j].key
      {
        assert SubjectIndexed(t, gi, i) && SubjectIndexed(t, gi, j);
      }
    }
  }

  lemma FinishGroupFinishes(g: Group)
    requires OneOfEach(g)
    ensures Finished(FinishGroup(g)) && FinishGroup(g).kind == g.kind
    ensures GroupSize(FinishGroup(g)) == GroupSize(g)
    ensures multiset(FinishGroup(g).subjects) == multiset(FinishSubjects(g.subjects))
  {
    var mapped, r := FinishSubjects(g.subjects), FinishGroup(g).subjects;
    SubjectOrderIsPreorder();
    SortSorts(SubjectLeq, mapped);
    SortKeepsKeys(mapped, r);
    assert |r| == |multiset(r)| == |multiset(mapped)| == |mapped|;
    forall si | 0 <= si < |r|
      ensures r[si].kind == g.kind
    {
      assert r[si] in multiset(mapped);
      var k :| 0 <= k < |mapped| && mapped[k] == r[si];
    }
    forall si | 0 <= si < |mapped|
      ensures SubjectSize(mapped[si]) == SubjectSize(g.subjects[si])
    {
      SortedFacets(g.subjects[si].facets);
    }
    TotalPointwise(SubjectSize, mapped, g.subjects);
    TotalSort(SubjectSize, SubjectLeq, mapped);
  }

  lemma LiftKeepsFinished(g: Group, h: Group, addresses: set<string>)
    requires Finished(g) && Lifted(g, h, addresses)
    ensures Finished(h) && GroupSize(h) == GroupSize(g)
  {
    TotalPointwise(SubjectSize, g.subjects, h.subjects);
    LiftKeepsOrder(g, h, addresses);
  }

  lemma LiftKeepsOrder(g: Group, h: Group, addresses: set<string>)
    requires SortedBy(SubjectLeq, g.subjects) && Lifted(g, h, addresses)
    ensures SortedBy(SubjectLeq, h.subjects)
  {
    forall i, j | 0 <= i < j < |h.subjects|
      ensures SubjectLeq(h.subjects[i], h.subjects[j])
    {
      assert SubjectLeq(g.subjects[i], g.subjects[j]);
    }
  }

  // ---- what the finished groups list, subject by subject

  ghost function Expected(t: Table, addresses: set<string>, kind: Kind, key: string): Option<Subject>
    requires Indexed(t)
  {
    assert KeyIndexed(t, kind, key);
    match Lookup(t, kind, key)
    case None => None
    case Some(u) => Some(LiftSubject(kind, FinishSubject(u), addresses))
  }

  lemma LookupIsListed(t: Table, gi: nat, si: nat)
    requires Indexed(t) && gi < |t.groups| && si < |t.groups[gi].subjects|
    ensures var u := t.groups[gi].subjects[si];
            u.kind == t.groups[gi].kind && KeyIndexed(t, u.kind, u.key) && Lookup(t, u.kind, u.key) == Some(u)
  {
    assert GroupIndexed(t, gi) && SubjectIndexed(t, gi, si);
  }

  /** Where a subject of the table ends up in its finished group. */
  lemma FinishedPlace(g: Group, si: nat) returns (k: nat)
    requires OneOfEach(g) && si < |g.subjects|
    ensures k < |FinishGroup(g).subjects| && FinishGroup(g).subjects[k] == FinishSubject(g.subjects[si])
  {
    FinishGroupFinishes(g);
    assert FinishSubjects(g.subjects)[si] in multiset(FinishGroup(g).subjects);
    k :| 0 <= k < |FinishGroup(g).subjects| && FinishGroup(g).subjects[k] == FinishSubjects(g.subjects)[si];
  }

  lemma FinishedFrom(g: Group, k: nat) returns (si: nat)
    requires OneOfEach(g) && k < |FinishGroup(g).subjects|
    ensures si < |g.subjects| && FinishGroup(g).subjects[k] == FinishSubject(g.subjects[si])
  {
    FinishGroupFinishes(g);
    assert FinishGroup(g).subjects[k] in multiset(FinishSubjects(g.subjects));
    si :| 0 <= si < |g.subjects| && FinishSubjects(g.subjects)[si] == FinishGroup(g).subjects[k];
  }

  lemma ListedIsExpected(t: Table, groups: seq<Group>, lifted: seq<Group>, addresses: set<string>, gi: nat, k: nat)
    requires Indexed(t) && |groups| == |t.groups| == |lifted|
    requires forall gi :: 0 <= gi < |groups| ==> groups[gi] == FinishGroup(t.groups[gi])
    requires forall gi :: 0 <= gi < |lifted| ==> Lifted(groups[gi], lifted[gi], addresses)
    requires gi < |lifted| && k < |lifted[gi].subjects|
    ensures var s := lifted[gi].subjects[k];
            Expected(t, addresses, s.kind, s.key) == Some(s)
  {
    TableIsDistinct(t);
    assert Lifted(groups[gi], lifted[gi], addresses);
    var si := FinishedFrom(t.groups[gi], k);
    LookupIsListed(t, gi, si);
  }

  lemma ExpectedIsListed(t: Table, groups: seq<Group>, lifted: seq<Group>, addresses: set<string>, s: Subject)
    requires Indexed(t) && |groups| == |t.groups| == |lifted|
    requires forall gi :: 0 <= gi < |groups| ==> groups[gi] == FinishGroup(t.groups[gi])
    requires forall gi :: 0 <= gi < |lifted| ==> Lifted(groups[gi], lifted[gi], addresses)
    requires Expected(t, addresses, s.kind, s.key) == Some(s)
    ensures Lists(lifted, s)
  {
    TableIsDistinct(t);
    assert KeyIndexed(t, s.kind, s.key);
    var gi, si := t.groupIdx[s.kind], t.subjectIdx[(s.kind, s.key)];
    var k := FinishedPlace(t.groups[gi], si);
    assert Lifted(groups[gi], lifted[gi], addresses);
    LookupIsListed(t, gi, si);
    assert lifted[gi].subjects[k] == s;
  }

  lemma ListsExpected(t: Table, groups: seq<Group>, lifted: seq<Group>, addresses: set<string>, s: Subject)
    requires Indexed(t) && |groups| == |t.groups| == |lifted|
    requires forall gi :: 0 <= gi < |groups| ==> groups[gi] == FinishGroup(t.groups[gi])
    requires forall gi :: 0 <= gi < |lifted| ==> Lifted(groups[gi], lifted[gi], addresses)
    ensures Lists(lifted, s) <==> Expected(t, addresses, s.kind, s.key) == Some(s)
  {
    if Lists(lifted, s) {
      var gi :| 0 <= gi < |lifted| && s in lifted[gi].subjects;
      var k :| 0 <= k < |lifted[gi].subjects| && lifted[gi].subjects[k] == s;
      ListedIsExpected(t, groups, lifted, addresses, gi, k);
    }
    if Expected(t, addresses, s.kind, s.key) == Some(s) {
      ExpectedIsListed(t, groups, lifted, addresses, s);
    }
  }

  // ---- the table's answers are the rows' answers

  lemma {:induction false} ProxyFacetsAreProxyRows(rows: seq<Row>, vantages: Vantages, ties: Ties, kind: Kind, key: string)
    ensures AnyProxyEdge(FacetsOf(rows, vantages, ties, kind, key)) <==> OwnProxyEdge(rows, kind, key)
  {
    if rows != [] {
      var prev, last := rows[..|rows| - 1], rows[|rows| - 1];
      ProxyFacetsAreProxyRows(prev, vantages, ties, kind, key);
      var held, all := FacetsOf(prev, vantages, ties, kind, key), FacetsOf(rows, vantages, ties, kind, key);
      assert rows == prev + [last];
      if last.kind == kind && last.key == key {
        assert all == held + [FacetOf(last, vantages, ties)];
        assert all[|held|].proxyEdge == ProxyRow(last);
        assert forall i :: 0 <= i < |held| ==> all[i] == held[i];
      } else {
        assert all == held;
      }
      OwnProxyEdgeGrows(prev, last, kind, key);
    }
  }

  lemma OwnProxyEdgeGrows(prev: seq<Row>, last: Row, kind: Kind, key: string)
    ensures OwnProxyEdge(prev + [last], kind, key)
       <==> OwnProxyEdge(prev, kind, key) || (ProxyRow(last) && last.kind == kind && last.key == key)
  {
    var rows := prev + [last];
    assert rows[|prev|] == last;
    assert forall i :: 0 <= i < |prev| ==> rows[i] == prev[i];
  }

  lemma BehindHasRow(t: Table, rows: seq<Row>, vantages: Vantages, ties: Ties, canonical: Canonical, gi: nat, si: nat, address: string)
    requires Groups(t, rows, vantages, ties)
    requires gi < |t.groups| && si < |t.groups[gi].subjects|
    requires StandsBehind(t.groups[gi].subjects[si], canonical, address)
    ensures Behind(rows, canonical, address)
  {
    var u := t.groups[gi].subjects[si];
    LookupIsListed(t, gi, si);
    assert Holds(t, rows, vantages, ties, u.kind, u.key);
    var i :| 0 <= i < |rows| && rows[i].kind == u.kind && rows[i].key == u.key;
    assert StandsAt(rows[i], canonical, address);
  }

  lemma RowIsBehind(t: Table, rows: seq<Row>, vantages: Vantages, ties: Ties, canonical: Canonical, i: nat, address: string)
    requires Groups(t, rows, vantages, ties)
    requires i < |rows| && StandsAt(rows[i], canonical, address)
    ensures GroupsBehind(t.groups, |t.groups|, canonical, address)
  {
    var kind, key := rows[i].kind, rows[i].key;
    assert KeyIndexed(t, kind, key) && Holds(t, rows, vantages, ties, kind, key);
    assert Seen(rows, kind, key);
    var gi, si := t.groupIdx[kind], t.subjectIdx[(kind, key)];
    LookupIsListed(t, gi, si);
    assert t.groups[gi].subjects[si].key == key;
    assert GroupBehind(t.groups[gi], |t.groups[gi].subjects|, canonical, address);
  }

  lemma BehindMatchesRows(t: Table, rows: seq<Row>, vantages: Vantages, ties: Ties, canonical: Canonical, address: string)
    requires Groups(t, rows, vantages, ties)
    ensures GroupsBehind(t.groups, |t.groups|, canonical, address) <==> Behind(rows, canonical, address)
  {
    if GroupsBehind(t.groups, |t.groups|, canonical, address) {
      var gi :| 0 <= gi < |t.groups| && GroupBehind(t.groups[gi], |t.groups[gi].subjects|, canonical, address);
      var si :| 0 <= si < |t.groups[gi].subjects|
                && SubjectAddress(canonical, t.groups[gi].subjects[si].kind, t.groups[gi].subjects[si].key) == Some(address);
      LookupIsListed(t, gi, si);
      BehindHasRow(t, rows, vantages, ties, canonical, gi, si, address);
    }
    if Behind(rows, canonical, address) {
      var i :| 0 <= i < |rows| && StandsAt(rows[i], canonical, address);
      RowIsBehind(t, rows, vantages, ties, canonical, i, address);
    }
  }

  /** After projection the table answers for exactly the subjects that are to be listed. */
  lemma ProjectedTable(t: Table, r: Table, keys: seq<string>, rows: seq<Row>, vantages: Vantages, ties: Ties,
                       canonical: Canonical, kind: Kind, key: string)
    requires Groups(t, rows, vantages, ties) && Indexed(r) && Projected(t, r, keys, kind, key)
    requires key in keys <==> GroupsBehind(t.groups, |t.groups|, canonical, key)
    ensures KeyIndexed(r, kind, key)
    ensures Lookup(r, kind, key)
         == if Present(rows, canonical, kind, key) then Some(Subject(kind, key, FacetsOf(rows, vantages, ties, kind, key), false)) else None
  {
    assert KeyIndexed(t, kind, key) && KeyIndexed(r, kind, key);
    assert Holds(t, rows, vantages, ties, kind, key);
    BehindMatchesRows(t, rows, vantages, ties, canonical, key);
    if !Seen(rows, kind, key) {
      UnseenHasNoFacets(rows, vantages, ties, kind, key);
    }
  }

  ghost predicate Answers(r: Table, rows: seq<Row>, vantages: Vantages, ties: Ties, canonical: Canonical, kind: Kind, key: string)
    requires Indexed(r)
  {
    assert KeyIndexed(r, kind, key);
    Lookup(r, kind, key)
    == if Present(rows, canonical, kind, key) then Some(Subject(kind, key, FacetsOf(rows, vantages, ties, kind, key), false)) else None
  }

  lemma FlaggedServiceHasRow(r: Table, rows: seq<Row>, vantages: Vantages, ties: Ties, canonical: Canonical, gi: nat, si: nat, address: string)
    requires Indexed(r) && (forall kind, key :: Answers(r, rows, vantages, ties, canonical, kind, key))
    requires gi < |r.groups| && r.groups[gi].kind == Service && si < |r.groups[gi].subjects|
    requires ProxyServiceAt(FinishSubject(r.groups[gi].subjects[si]), canonical, address)
    ensures ServiceProxyEdge(rows, canonical, address)
  {
    LookupIsListed(r, gi, si);
    var u := r.groups[gi].subjects[si];
    assert Answers(r, rows, vantages, ties, canonical, u.kind, u.key);
    ProxyFacetsAreProxyRows(rows, vantages, ties, u.kind, u.key);
    var i :| 0 <= i < |rows| && ProxyRow(rows[i]) && rows[i].kind == u.kind && rows[i].key == u.key;
  }

  lemma FlaggedRowHasService(r: Table, rows: seq<Row>, vantages: Vantages, ties: Ties, canonical: Canonical, i: nat, address: string)
    returns (gi: nat, si: nat)
    requires Indexed(r) && (forall kind, key :: Answers(r, rows, vantages, ties, canonical, kind, key))
    requires i < |rows| && ProxyRow(rows[i]) && rows[i].kind == Service
    requires SubjectAddress(canonical, Service, rows[i].key) == Some(address)
    ensures gi < |r.groups| && r.groups[gi].kind == Service && si < |r.groups[gi].subjects|
    ensures ProxyServiceAt(FinishSubject(r.groups[gi].subjects[si]), canonical, address)
  {
    var key := rows[i].key;
    assert KeyIndexed(r, Service, key) && Answers(r, rows, vantages, ties, canonical, Service, key);
    assert Seen(rows, Service, key) && OwnProxyEdge(rows, Service, key);
    ProxyFacetsAreProxyRows(rows, vantages, ties, Service, key);
    gi, si := r.groupIdx[Service], r.subjectIdx[(Service, key)];
    LookupIsListed(r, gi, si);
  }

  /** The addresses the flag is carried to are those some flagged service row stands at. */
  lemma ProxyMatchesRows(r: Table, groups: seq<Group>, rows: seq<Row>, vantages: Vantages, ties: Ties, canonical: Canonical, address: string)
    requires Indexed(r) && (forall kind, key :: Answers(r, rows, vantages, ties, canonical, kind, key))
    requires |groups| == |r.groups| && forall gi :: 0 <= gi < |groups| ==> groups[gi] == FinishGroup(r.groups[gi])
    ensures ProxyAt(groups, |groups|, canonical, address) <==> ServiceProxyEdge(rows, canonical, address)
  {
    TableIsDistinct(r);
    if ProxyAt(groups, |groups|, canonical, address) {
      var gi :| 0 <= gi < |groups| && groups[gi].kind == Service && ProxyIn(groups[gi], |groups[gi].subjects|, canonical, address);
      var k :| 0 <= k < |groups[gi].subjects| && ProxyServiceAt(groups[gi].subjects[k], canonical, address);
      var si := FinishedFrom(r.groups[gi], k);
      FlaggedServiceHasRow(r, rows, vantages, ties, canonical, gi, si, address);
    }
    if ServiceProxyEdge(rows, canonical, address) {
      var i :| 0 <= i < |rows| && ProxyRow(rows[i]) && rows[i].kind == Service
               && SubjectAddress(canonical, Service, rows[i].key) == Some(address);
      var gi, si := FlaggedRowHasService(r, rows, vantages, ties, canonical, i, address);
      var k := FinishedPlace(r.groups[gi], si);
      assert ProxyServiceAt(groups[gi].subjects[k], canonical, address);
      assert ProxyIn(groups[gi], |groups[gi].subjects|, canonical, address);
    }
  }

  /** The groups in the order they are shown, each finished, each kind once. */
  ghost predicate InShowOrder(groups: seq<Group>) {
    && SortedBy(GroupLeq, groups) && DistinctKinds(groups)
    && forall gi :: 0 <= gi < |groups| ==> Finished(groups[gi])
  }

  /** What the listing holds: a subject is listed exactly when it is present, and then as `Listed` says. */
  ghost predicate HoldsExactly(groups: seq<Group>, rows: seq<Row>, vantages: Vantages, ties: Ties, canonical: Canonical) {
    forall s :: Lists(groups, s) <==>
      Present(rows, canonical, s.kind, s.key) && s == Listed(rows, vantages, ties, canonical, s.kind, s.key)
  }

  method BuildInventory(rows: seq<Row>, vantages: Vantages, canonical: Canonical) returns (groups: seq<Group>, ties: Ties)
    ensures AreTies(ties, rows, vantages)
    ensures InShowOrder(groups)
    ensures HoldsExactly(groups, rows, vantages, ties, canonical)
    ensures FacetCount(groups) == |rows|
  {
    ties := InventoryClassTies(rows, vantages);
    var t := GroupRows(rows, vantages, ties);
    var r, keys := ProjectAddresses(t, canonical);
    forall kind, key
      ensures Answers(r, rows, vantages, ties, canonical, kind, key)
    {
      assert Projected(t, r, keys, kind, key);
      ProjectedTable(t, r, keys, rows, vantages, ties, canonical, kind, key);
    }
    forall gi, si | 0 <= gi < |r.groups| && 0 <= si < |r.groups[gi].subjects|
      ensures !r.groups[gi].subjects[si].proxyEdge
    {
      LookupIsListed(r, gi, si);
      var u := r.groups[gi].subjects[si];
      assert Answers(r, rows, vantages, ties, canonical, u.kind, u.key);
    }
    var finished := SortGroups(r.groups);
    var lifted, addresses := PropagateProxyEdge(finished, canonical);
    groups := Sort(GroupLeq, lifted);
    SortShows(r, finished, lifted, addresses, groups);
    ContentsAreExact(r, finished, lifted, addresses, groups, rows, vantages, ties, canonical);
  }

  lemma ContentsAreExact(r: Table, finished: seq<Group>, lifted: seq<Group>, addresses: set<string>, groups: seq<Group>,
                         rows: seq<Row>, vantages: Vantages, ties: Ties, canonical: Canonical)
    requires Indexed(r) && (forall kind, key :: Answers(r, rows, vantages, ties, canonical, kind, key))
    requires |finished| == |r.groups| == |lifted| && multiset(groups) == multiset(lifted)
    requires forall gi :: 0 <= gi < |finished| ==> finished[gi] == FinishGroup(r.groups[gi])
    requires forall gi :: 0 <= gi < |lifted| ==> Lifted(finished[gi], lifted[gi], addresses)
    requires forall a :: a in addresses <==> ProxyAt(finished, |finished|, canonical, a)
    ensures HoldsExactly(groups, rows, vantages, ties, canonical)
  {
    forall s
      ensures Lists(groups, s) <==>
        Present(rows, canonical, s.kind, s.key) && s == Listed(rows, vantages, ties, canonical, s.kind, s.key)
    {
      ListsExpected(r, finished, lifted, addresses, s);
      assert Answers(r, rows, vantages, ties, canonical, s.kind, s.key);
      ProxyMatchesRows(r, finished, rows, vantages, ties, canonical, s.key);
      ProxyFacetsAreProxyRows(rows, vantages, ties, s.kind, s.key);
      SameLists(lifted, groups, s);
    }
  }

  lemma SameLists(a: seq<Group>, b: seq<Group>, s: Subject)
    requires multiset(a) == multiset(b)
    ensures Lists(a, s) <==> Lists(b, s)
  {
    if Lists(a, s) {
      var gi :| 0 <= gi < |a| && s in a[gi].subjects;
      assert a[gi] in multiset(b);
      var k :| 0 <= k < |b| && b[k] == a[gi];
    }
    if Lists(b, s) {
      var gi :| 0 <= gi < |b| && s in b[gi].subjects;
      assert b[gi] in multiset(a);
      var k :| 0 <= k < |a| && a[k] == b[gi];
    }
  }

  lemma SortShows(r: Table, finished: seq<Group>, lifted: seq<Group>, addresses: set<string>, groups: seq<Group>)
    requires Indexed(r) && |finished| == |r.groups| == |lifted| && groups == Sort(GroupLeq, lifted)
    requires forall gi :: 0 <= gi < |finished| ==> finished[gi] == FinishGroup(r.groups[gi])
    requires forall gi :: 0 <= gi < |lifted| ==> Lifted(finished[gi], lifted[gi], addresses)
    ensures InShowOrder(groups) && multiset(groups) == multiset(lifted) && FacetCount(groups) == FacetCount(r.groups)
  {
    TableIsDistinct(r);
    forall gi | 0 <= gi < |lifted|
      ensures Finished(lifted[gi]) && lifted[gi].kind == r.groups[gi].kind && GroupSize(lifted[gi]) == GroupSize(r.groups[gi])
    {
      FinishGroupFinishes(r.groups[gi]);
      LiftKeepsFinished(finished[gi], lifted[gi], addresses);
    }
    TotalPointwise(GroupSize, lifted, r.groups);
    SortSorts(GroupLeq, lifted);
    TotalSort(GroupSize, GroupLeq, lifted);
    SortKeepsKinds(lifted, groups);
    forall gi | 0 <= gi < |groups|
      ensures Finished(groups[gi])
    {
      assert groups[gi] in multiset(lifted);
      var k :| 0 <= k < |lifted| && lifted[k] == groups[gi];
    }
  }

  // ---------------------------------------------------------------- the window

  ghost predicate Windowed(g: Group, h: Group, expand: Kind) {
    && h.kind == g.kind && h.total == g.total && h.subjects <= g.subjects
    && |h.subjects| + h.more == h.total
    && |h.subjects| == if g.kind == expand || g.total <= GROUP_WINDOW then g.total else GROUP_WINDOW
  }

  /** Every group shows its first 25 subjects, the asked-for group all of them, and what is shown and what
      is announced as more make up the total. */
  method WindowGroups(groups: seq<Group>, expand: Kind) returns (out: seq<Group>)
    requires forall gi :: 0 <= gi < |groups| ==> groups[gi].total == |groups[gi].subjects| && groups[gi].more == 0
    ensures |out| == |groups| && forall gi :: 0 <= gi < |out| ==> Windowed(groups[gi], out[gi], expand)
  {
    out := groups;
    for gi := 0 to |groups|
      invariant |out| == |groups|
      invariant forall k :: 0 <= k < gi ==> Windowed(groups[k], out[k], expand)
      invariant forall k :: gi <= k < |out| ==> out[k] == groups[k]
    {
      if out[gi].kind == expand {
        out := out[gi := out[gi].(more := 0)];
        continue;
      }
      if |out[gi].subjects| > GROUP_WINDOW {
        out := out[gi := out[gi].(more := out[gi].total - GROUP_WINDOW, subjects := out[gi].subjects[..GROUP_WINDOW])];
      }
    }
  }
}
