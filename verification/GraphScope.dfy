/**
  What a topology drawing is of (cmd/web/graph.go): which subjects a scope holds, the edges between them,
  and which names are drawn as domains.

  `Env` stands for the parsing the drawing does not decide: whether a name lies under the scope's
  domain, what an address spelling parses to, whether the scope's prefix holds an address, and the
  address of a service key.
*/
module GraphScope {
  import opened Wrappers
  import opened Sorting

  datatype NodeId = NameId(key: string) | AddrId(key: string) | SvcId(key: string)

  datatype Span =
    | NameSpan(key: string, resolved: seq<string>)
    | ServiceSpan(key: string)
    | OtherSpan

  /** `resolved` of a name span is empty unless the span is a resolution that is not a Gap. */
  datatype Scope = Whole | DomainScope | PrefixScope

  datatype Env = Env(underDomain: string -> bool, parse: string -> Option<int>, inPrefix: int -> bool,
                     pairAddr: string -> Option<string>)

  datatype Members = Members(names: set<string>, addrs: set<int>)

  // ---------------------------------------------------------------- scope

  function MemberAddrs(env: Env, rows: seq<Span>): set<int> {
    set r, a | r in rows && r.NameSpan? && env.underDomain(r.key) && a in r.resolved && env.parse(a).Some? :: env.parse(a).value
  }

  function MemberNames(env: Env, rows: seq<Span>): set<string> {
    set r, a | r in rows && r.NameSpan? && a in r.resolved && env.parse(a).Some? && env.inPrefix(env.parse(a).value) :: r.key
  }

  function MembersOf(env: Env, scope: Scope, rows: seq<Span>): Members {
    match scope
    case Whole => Members({}, {})
    case DomainScope => Members({}, MemberAddrs(env, rows))
    case PrefixScope => Members(MemberNames(env, rows), {})
  }

  function Parsed(env: Env, spellings: seq<string>): set<int> {
    set a | a in spellings && env.parse(a).Some? :: env.parse(a).value
  }

  predicate SomeInPrefix(env: Env, spellings: seq<string>) {
    exists a :: a in spellings && env.parse(a).Some? && env.inPrefix(env.parse(a).value)
  }

  /** The addresses of one resolution, and whether one of them is inside the scope's prefix. */
  method ScanAddresses(env: Env, spellings: seq<string>) returns (addrs: set<int>, inside: bool)
    ensures addrs == Parsed(env, spellings)
    ensures inside <==> SomeInPrefix(env, spellings)
  {
    addrs, inside := {}, false;
    for j := 0 to |spellings|
      invariant addrs == Parsed(env, spellings[..j])
      invariant inside <==> SomeInPrefix(env, spellings[..j])
    {
      assert spellings[..j + 1] == spellings[..j] + [spellings[j]];
      var addr := env.parse(spellings[j]);
      if addr.None? {
        continue;
      }
      addrs := addrs + {addr.value};
      if env.inPrefix(addr.value) {
        inside := true;
      }
    }
    assert spellings[..|spellings|] == spellings;
  }

  lemma MembersSnoc(env: Env, rows: seq<Span>, i: nat)
    requires i < |rows|
    ensures MemberAddrs(env, rows[..i + 1]) == MemberAddrs(env, rows[..i])
            + if rows[i].NameSpan? && env.underDomain(rows[i].key) then Parsed(env, rows[i].resolved) else {}
    ensures MemberNames(env, rows[..i + 1]) == MemberNames(env, rows[..i])
            + if rows[i].NameSpan? && SomeInPrefix(env, rows[i].resolved) then {rows[i].key} else {}
  {
    assert rows[..i + 1] == rows[..i] + [rows[i]];
  }

  method GraphScopeMembers(env: Env, scope: Scope, rows: seq<Span>) returns (m: Members)
    ensures m == MembersOf(env, scope, rows)
  {
    if scope.Whole? {
      return Members({}, {});
    }
    var names: set<string>, addrs: set<int> := {}, {};
    for i := 0 to |rows|
      invariant addrs == if scope.DomainScope? then MemberAddrs(env, rows[..i]) else {}
      invariant names == if scope.PrefixScope? then MemberNames(env, rows[..i]) else {}
    {
      MembersSnoc(env, rows, i);
      var row := rows[i];
      if !row.NameSpan? {
        continue;
      }
      var rowAddrs, inside := ScanAddresses(env, row.resolved);
      if scope.DomainScope? && env.underDomain(row.key) {
        addrs := addrs + rowAddrs;
      }
      if scope.PrefixScope? && inside {
        names := names + {row.key};
      }
    }
    assert rows[..|rows|] == rows;
    m := Members(names, addrs);
  }

  predicate HoldsName(env: Env, scope: Scope, m: Members, name: string) {
    match scope
    case Whole => true
    case DomainScope => env.underDomain(name)
    case PrefixScope => name in m.names
  }

  predicate HoldsAddress(env: Env, scope: Scope, m: Members, spelling: string) {
    match scope
    case Whole => true
    case DomainScope => env.parse(spelling).Some? && env.parse(spelling).value in m.addrs
    case PrefixScope => env.parse(spelling).Some? && env.inPrefix(env.parse(spelling).value)
  }

  // ---------------------------------------------------------------- subjects and edges

  datatype Edge = Edge(from: NodeId, to: NodeId)

  /** What one row puts on the drawing before any cap. */
  datatype Parts = Parts(names: set<string>, addrs: set<string>, services: set<string>, edges: set<Edge>)

  const NO_PARTS := Parts({}, {}, {}, {})

  function Union(a: Parts, b: Parts): Parts {
    Parts(a.names + b.names, a.addrs + b.addrs, a.services + b.services, a.edges + b.edges)
  }

  function HeldAddrs(env: Env, scope: Scope, m: Members, spellings: seq<string>): set<string> {
    set a | a in spellings && HoldsAddress(env, scope, m, a)
  }

  function PartsOfRow(env: Env, scope: Scope, m: Members, row: Span): Parts {
    match row
    case OtherSpan => NO_PARTS
    case NameSpan(key, resolved) =>
      if !HoldsName(env, scope, m, key) then NO_PARTS
      else
        var held := HeldAddrs(env, scope, m, resolved);
        Parts({key}, held, {}, set a | a in held :: Edge(NameId(key), AddrId(a)))
    case ServiceSpan(key) =>
      match env.pairAddr(key)
      case Some(addr) =>
        if HoldsAddress(env, scope, m, addr) then Parts({}, {addr}, {key}, {Edge(AddrId(addr), SvcId(key))}) else NO_PARTS
      case None => if scope.Whole? then Parts({}, {}, {key}, {}) else NO_PARTS
  }

  function PartsOf(env: Env, scope: Scope, m: Members, rows: seq<Span>): Parts {
    if rows == [] then NO_PARTS
    else Union(PartsOf(env, scope, m, rows[..|rows| - 1]), PartsOfRow(env, scope, m, rows[|rows| - 1]))
  }

  /** The edges in first-seen order, each once. */
  ghost predicate Lists(order: seq<Edge>, edges: set<Edge>) {
    NoDuplicates(order) && ToSet(order) == edges
  }

  lemma ListsAdd(order: seq<Edge>, edges: set<Edge>, e: Edge)
    requires Lists(order, edges)
    ensures e !in edges ==> Lists(order + [e], edges + {e})
    ensures e in edges ==> edges + {e} == edges
  {
    if e !in edges {
      assert e !in ToSet(order);
      assert ToSet(order + [e]) == ToSet(order) + {e};
    }
  }

  method AddEdge(order: seq<Edge>, seen: set<Edge>, e: Edge) returns (newOrder: seq<Edge>, newSeen: set<Edge>)
    requires Lists(order, seen)
    ensures newSeen == seen + {e} && Lists(newOrder, newSeen)
  {
    ListsAdd(order, seen, e);
    if e in seen {
      return order, seen;
    }
    return order + [e], seen + {e};
  }

  /** A held name's resolution: its held addresses, and an edge to each. */
  method AddResolution(env: Env, scope: Scope, m: Members, key: string, resolved: seq<string>, addrs: set<string>,
                       order: seq<Edge>, seen: set<Edge>)
    returns (newAddrs: set<string>, newOrder: seq<Edge>, newSeen: set<Edge>)
    requires Lists(order, seen)
    ensures newAddrs == addrs + HeldAddrs(env, scope, m, resolved)
    ensures newSeen == seen + (set a | a in HeldAddrs(env, scope, m, resolved) :: Edge(NameId(key), AddrId(a)))
    ensures Lists(newOrder, newSeen)
  {
    newAddrs, newOrder, newSeen := addrs, order, seen;
    for j := 0 to |resolved|
      invariant newAddrs == addrs + HeldAddrs(env, scope, m, resolved[..j])
      invariant newSeen == seen + (set a | a in HeldAddrs(env, scope, m, resolved[..j]) :: Edge(NameId(key), AddrId(a)))
      invariant Lists(newOrder, newSeen)
    {
      assert resolved[..j + 1] == resolved[..j] + [resolved[j]];
      if !HoldsAddress(env, scope, m, resolved[j]) {
        assert HeldAddrs(env, scope, m, resolved[..j + 1]) == HeldAddrs(env, scope, m, resolved[..j]);
        continue;
      }
      assert HeldAddrs(env, scope, m, resolved[..j + 1]) == HeldAddrs(env, scope, m, resolved[..j]) + {resolved[j]};
      newAddrs := newAddrs + {resolved[j]};
      newOrder, newSeen := AddEdge(newOrder, newSeen, Edge(NameId(key), AddrId(resolved[j])));
    }
    assert resolved[..|resolved|] == resolved;
  }

  method CollectRow(env: Env, scope: Scope, m: Members, row: Span, parts: Parts, order: seq<Edge>)
    returns (grown: Parts, newOrder: seq<Edge>)
    requires Lists(order, parts.edges)
    ensures grown == Union(parts, PartsOfRow(env, scope, m, row))
    ensures Lists(newOrder, grown.edges)
  {
    grown, newOrder := parts, order;
    match row {
      case OtherSpan =>
      case NameSpan(key, resolved) =>
        if HoldsName(env, scope, m, key) {
          var addrs, seen;
          addrs, newOrder, seen := AddResolution(env, scope, m, key, resolved, parts.addrs, order, parts.edges);
          grown := Parts(parts.names + {key}, addrs, parts.services, seen);
        }
      case ServiceSpan(key) =>
        var addr := env.pairAddr(key);
        if addr.Some? && !HoldsAddress(env, scope, m, addr.value) {
          return;
        }
        if addr.None? && !scope.Whole? {
          return;
        }
        var services := parts.services + {key};
        if addr.Some? {
          var seen;
          newOrder, seen := AddEdge(order, parts.edges, Edge(AddrId(addr.value), SvcId(key)));
          grown := Parts(parts.names, parts.addrs + {addr.value}, services, seen);
        } else {
          grown := Parts(parts.names, parts.addrs, services, parts.edges);
        }
    }
  }

  method Collect(env: Env, scope: Scope, m: Members, rows: seq<Span>) returns (parts: Parts, order: seq<Edge>)
    ensures parts == PartsOf(env, scope, m, rows)
    ensures Lists(order, parts.edges)
  {
    parts, order := NO_PARTS, [];
    for i := 0 to |rows|
      invariant parts == PartsOf(env, scope, m, rows[..i])
      invariant Lists(order, parts.edges)
    {
      assert rows[..i + 1][..i] == rows[..i];
      parts, order := CollectRow(env, scope, m, rows[i], parts, order);
    }
    assert rows[..|rows|] == rows;
  }

  ghost predicate EdgeHeld(p: Parts, e: Edge) {
    || (e.from.NameId? && e.from.key in p.names && e.to.AddrId? && e.to.key in p.addrs)
    || (e.from.AddrId? && e.from.key in p.addrs && e.to.SvcId? && e.to.key in p.services)
  }

  lemma RowEdgesHeld(env: Env, scope: Scope, m: Members, row: Span, e: Edge)
    requires e in PartsOfRow(env, scope, m, row).edges
    ensures EdgeHeld(PartsOfRow(env, scope, m, row), e)
  {
    if row.NameSpan? && HoldsName(env, scope, m, row.key) {
      var a :| a in HeldAddrs(env, scope, m, row.resolved) && e == Edge(NameId(row.key), AddrId(a));
    }
  }

  lemma EdgeHeldGrows(p: Parts, q: Parts, e: Edge)
    requires EdgeHeld(p, e) || EdgeHeld(q, e)
    ensures EdgeHeld(Union(p, q), e)
  {
  }

  /** Both ends of every edge are subjects the scope holds. */
  lemma {:induction false} EdgesJoinHeldSubjects(env: Env, scope: Scope, m: Members, rows: seq<Span>, e: Edge)
    requires e in PartsOf(env, scope, m, rows).edges
    ensures EdgeHeld(PartsOf(env, scope, m, rows), e)
  {
    if rows != [] {
      var before, last := PartsOf(env, scope, m, rows[..|rows| - 1]), PartsOfRow(env, scope, m, rows[|rows| - 1]);
      if e in before.edges {
        EdgesJoinHeldSubjects(env, scope, m, rows[..|rows| - 1], e);
      } else {
        RowEdgesHeld(env, scope, m, rows[|rows| - 1], e);
      }
      EdgeHeldGrows(before, last, e);
    }
  }

  /** Every name put on the drawing is one the scope holds. */
  lemma {:induction false} DrawnNamesAreInScope(env: Env, scope: Scope, m: Members, rows: seq<Span>, name: string)
    requires name in PartsOf(env, scope, m, rows).names
    ensures HoldsName(env, scope, m, name)
  {
    if name in PartsOf(env, scope, m, rows[..|rows| - 1]).names {
      DrawnNamesAreInScope(env, scope, m, rows[..|rows| - 1], name);
    }
  }

  // ---------------------------------------------------------------- what a scope is, span by span

  /** A name span of `name` resolves to this spelling. */
  ghost predicate Resolves(rows: seq<Span>, name: string, spelling: string) {
    exists i :: 0 <= i < |rows| && rows[i].NameSpan? && rows[i].key == name && spelling in rows[i].resolved
  }

  /** The name is in scope: every name of the whole estate, a name under the scope's domain, or one
      with an address in the scope's prefix. */
  ghost predicate NameInScope(env: Env, scope: Scope, rows: seq<Span>, name: string) {
    match scope
    case Whole => true
    case DomainScope => env.underDomain(name)
    case PrefixScope =>
      exists a :: Resolves(rows, name, a) && env.parse(a).Some? && env.inPrefix(env.parse(a).value)
  }

  /** The address is in scope: in the scope's prefix, or one that a name under the scope's domain
      resolves to, however it is spelled there. */
  ghost predicate AddressInScope(env: Env, scope: Scope, rows: seq<Span>, spelling: string) {
    match scope
    case Whole => true
    case DomainScope =>
      && env.parse(spelling).Some?
      && exists name, a :: Resolves(rows, name, a) && env.underDomain(name) && env.parse(a) == env.parse(spelling)
    case PrefixScope => env.parse(spelling).Some? && env.inPrefix(env.parse(spelling).value)
  }

  lemma HoldsNameReads(env: Env, scope: Scope, rows: seq<Span>, name: string)
    ensures HoldsName(env, scope, MembersOf(env, scope, rows), name) <==> NameInScope(env, scope, rows, name)
  {
    if scope.PrefixScope? && NameInScope(env, scope, rows, name) {
      var a :| Resolves(rows, name, a) && env.parse(a).Some? && env.inPrefix(env.parse(a).value);
      var i :| 0 <= i < |rows| && rows[i].NameSpan? && rows[i].key == name && a in rows[i].resolved;
      assert rows[i] in rows;
    }
    if scope.PrefixScope? && name in MemberNames(env, rows) {
      var r, a :| r in rows && r.NameSpan? && a in r.resolved && env.parse(a).Some? && env.inPrefix(env.parse(a).value)
                  && r.key == name;
      var i :| 0 <= i < |rows| && rows[i] == r;
      assert Resolves(rows, name, a);
    }
  }

  lemma HoldsAddressReads(env: Env, scope: Scope, rows: seq<Span>, spelling: string)
    ensures HoldsAddress(env, scope, MembersOf(env, scope, rows), spelling) <==> AddressInScope(env, scope, rows, spelling)
  {
    if scope.DomainScope? && AddressInScope(env, scope, rows, spelling) {
      var name, a :| Resolves(rows, name, a) && env.underDomain(name) && env.parse(a) == env.parse(spelling);
      var i :| 0 <= i < |rows| && rows[i].NameSpan? && rows[i].key == name && a in rows[i].resolved;
      assert rows[i] in rows;
    }
    if scope.DomainScope? && HoldsAddress(env, scope, MembersOf(env, scope, rows), spelling) {
      var r, a :| r in rows && r.NameSpan? && env.underDomain(r.key) && a in r.resolved && env.parse(a).Some?
                  && env.parse(a).value == env.parse(spelling).value;
      var i :| 0 <= i < |rows| && rows[i] == r;
      assert Resolves(rows, r.key, a);
    }
  }

  /** The subjects of one id's kind. */
  function SubjectsOf(p: Parts, id: NodeId): set<string> {
    match id
    case NameId(_) => p.names
    case AddrId(_) => p.addrs
    case SvcId(_) => p.services
  }

  ghost predicate HasName(rows: seq<Span>, name: string) {
    exists i :: 0 <= i < |rows| && rows[i].NameSpan? && rows[i].key == name
  }

  /** A scope's edges: from a name in scope to each address in scope it resolves to, and from an
      address in scope to each service of its. */
  ghost predicate EdgeInScope(env: Env, scope: Scope, rows: seq<Span>, e: Edge) {
    match (e.from, e.to)
    case (NameId(name), AddrId(a)) =>
      Resolves(rows, name, a) && NameInScope(env, scope, rows, name) && AddressInScope(env, scope, rows, a)
    case (AddrId(a), SvcId(key)) =>
      ServiceSpan(key) in rows && env.pairAddr(key) == Some(a) && AddressInScope(env, scope, rows, a)
    case _ => false
  }

  /** A scope's subjects: the ends of its edges, its names, and, for the whole estate alone, the
      services whose key has no address. */
  ghost predicate SubjectInScope(env: Env, scope: Scope, rows: seq<Span>, id: NodeId) {
    match id
    case NameId(name) => HasName(rows, name) && NameInScope(env, scope, rows, name)
    case AddrId(a) => exists other ::
      EdgeInScope(env, scope, rows, Edge(other, id)) || EdgeInScope(env, scope, rows, Edge(id, other))
    case SvcId(key) =>
      && ServiceSpan(key) in rows
      && match env.pairAddr(key)
         case Some(a) => AddressInScope(env, scope, rows, a)
         case None => scope.Whole?
  }

  lemma {:induction false} PartsComeFromRows(env: Env, scope: Scope, m: Members, rows: seq<Span>, id: NodeId, e: Edge)
    ensures id.key in SubjectsOf(PartsOf(env, scope, m, rows), id) <==>
            exists i :: 0 <= i < |rows| && id.key in SubjectsOf(PartsOfRow(env, scope, m, rows[i]), id)
    ensures e in PartsOf(env, scope, m, rows).edges <==>
            exists i :: 0 <= i < |rows| && e in PartsOfRow(env, scope, m, rows[i]).edges
  {
    if rows != [] {
      var n := |rows| - 1;
      PartsComeFromRows(env, scope, m, rows[..n], id, e);
      assert rows == rows[..n] + [rows[n]];
    }
  }

  lemma RowEdge(env: Env, scope: Scope, m: Members, row: Span, e: Edge)
    ensures e in PartsOfRow(env, scope, m, row).edges <==>
            match (e.from, e.to)
            case (NameId(name), AddrId(a)) =>
              row.NameSpan? && row.key == name && a in row.resolved && HoldsName(env, scope, m, name) && HoldsAddress(env, scope, m, a)
            case (AddrId(a), SvcId(key)) =>
              row == ServiceSpan(key) && env.pairAddr(key) == Some(a) && HoldsAddress(env, scope, m, a)
            case _ => false
  {
  }

  lemma EdgesReadFromSpans(env: Env, scope: Scope, rows: seq<Span>, e: Edge)
    ensures e in PartsOf(env, scope, MembersOf(env, scope, rows), rows).edges <==> EdgeInScope(env, scope, rows, e)
  {
    var m := MembersOf(env, scope, rows);
    PartsComeFromRows(env, scope, m, rows, e.from, e);
    HoldsNameReads(env, scope, rows, e.from.key);
    HoldsAddressReads(env, scope, rows, e.from.key);
    HoldsAddressReads(env, scope, rows, e.to.key);
    if EdgeInScope(env, scope, rows, e) {
      var i :| 0 <= i < |rows| && (if e.from.NameId? then rows[i].NameSpan? && rows[i].key == e.from.key && e.to.key in rows[i].resolved
                                   else rows[i] == ServiceSpan(e.to.key));
      RowEdge(env, scope, m, rows[i], e);
    }
    if i :| 0 <= i < |rows| && e in PartsOfRow(env, scope, m, rows[i]).edges {
      RowEdge(env, scope, m, rows[i], e);
      assert rows[i] in rows;
    }
  }

  lemma NamesReadFromSpans(env: Env, scope: Scope, rows: seq<Span>, name: string)
    ensures name in PartsOf(env, scope, MembersOf(env, scope, rows), rows).names
            <==> SubjectInScope(env, scope, rows, NameId(name))
  {
    PartsComeFromRows(env, scope, MembersOf(env, scope, rows), rows, NameId(name), Edge(NameId(name), NameId(name)));
    HoldsNameReads(env, scope, rows, name);
  }

  lemma ServicesReadFromSpans(env: Env, scope: Scope, rows: seq<Span>, key: string)
    ensures key in PartsOf(env, scope, MembersOf(env, scope, rows), rows).services
            <==> SubjectInScope(env, scope, rows, SvcId(key))
  {
    var m := MembersOf(env, scope, rows);
    PartsComeFromRows(env, scope, m, rows, SvcId(key), Edge(SvcId(key), SvcId(key)));
    if env.pairAddr(key).Some? {
      HoldsAddressReads(env, scope, rows, env.pairAddr(key).value);
    }
    if ServiceSpan(key) in rows {
      var i :| 0 <= i < |rows| && rows[i] == ServiceSpan(key);
      assert SubjectInScope(env, scope, rows, SvcId(key)) ==> key in PartsOfRow(env, scope, m, rows[i]).services;
    }
  }

  /** Every address a row puts on the drawing is an end of an edge it puts there. */
  lemma RowAddressHasEdge(env: Env, scope: Scope, m: Members, row: Span, a: string)
    ensures a in PartsOfRow(env, scope, m, row).addrs <==>
            exists other :: Edge(other, AddrId(a)) in PartsOfRow(env, scope, m, row).edges
                         || Edge(AddrId(a), other) in PartsOfRow(env, scope, m, row).edges
  {
    if a in PartsOfRow(env, scope, m, row).addrs {
      match row
      case NameSpan(key, _) => assert Edge(NameId(key), AddrId(a)) in PartsOfRow(env, scope, m, row).edges;
      case ServiceSpan(key) => assert Edge(AddrId(a), SvcId(key)) in PartsOfRow(env, scope, m, row).edges;
      case OtherSpan =>
    }
  }

  lemma AddressesReadFromSpans(env: Env, scope: Scope, rows: seq<Span>, a: string)
    ensures a in PartsOf(env, scope, MembersOf(env, scope, rows), rows).addrs
            <==> SubjectInScope(env, scope, rows, AddrId(a))
  {
    var m := MembersOf(env, scope, rows);
    var p := PartsOf(env, scope, m, rows);
    PartsComeFromRows(env, scope, m, rows, AddrId(a), Edge(AddrId(a), AddrId(a)));
    if a in p.addrs {
      var i :| 0 <= i < |rows| && a in PartsOfRow(env, scope, m, rows[i]).addrs;
      RowAddressHasEdge(env, scope, m, rows[i], a);
      var other :| Edge(other, AddrId(a)) in PartsOfRow(env, scope, m, rows[i]).edges
                || Edge(AddrId(a), other) in PartsOfRow(env, scope, m, rows[i]).edges;
      EdgeOfRow(env, scope, rows, i, Edge(other, AddrId(a)));
      EdgeOfRow(env, scope, rows, i, Edge(AddrId(a), other));
    }
    if SubjectInScope(env, scope, rows, AddrId(a)) {
      var other :| EdgeInScope(env, scope, rows, Edge(other, AddrId(a))) || EdgeInScope(env, scope, rows, Edge(AddrId(a), other));
      var e := if EdgeInScope(env, scope, rows, Edge(other, AddrId(a))) then Edge(other, AddrId(a)) else Edge(AddrId(a), other);
      EdgesReadFromSpans(env, scope, rows, e);
      EdgesJoinHeldSubjects(env, scope, m, rows, e);
    }
  }

  lemma EdgeOfRow(env: Env, scope: Scope, rows: seq<Span>, i: nat, e: Edge)
    requires i < |rows|
    ensures e in PartsOfRow(env, scope, MembersOf(env, scope, rows), rows[i]).edges ==> EdgeInScope(env, scope, rows, e)
  {
    PartsComeFromRows(env, scope, MembersOf(env, scope, rows), rows, e.from, e);
    EdgesReadFromSpans(env, scope, rows, e);
  }

  /** The subjects and edges a drawing is made of are exactly those the spans put in scope. */
  lemma PartsReadFromSpans(env: Env, scope: Scope, rows: seq<Span>, id: NodeId, e: Edge)
    ensures var p := PartsOf(env, scope, MembersOf(env, scope, rows), rows);
            && (id.key in SubjectsOf(p, id) <==> SubjectInScope(env, scope, rows, id))
            && (e in p.edges <==> EdgeInScope(env, scope, rows, e))
  {
    EdgesReadFromSpans(env, scope, rows, e);
    match id
    case NameId(k) => NamesReadFromSpans(env, scope, rows, k);
    case AddrId(k) => AddressesReadFromSpans(env, scope, rows, k);
    case SvcId(k) => ServicesReadFromSpans(env, scope, rows, k);
  }

  // ---------------------------------------------------------------- name types

  /** `child` is a longer name ending in a dot and `parent`. */
  predicate IsChildOf(child: string, parent: string) {
    && |child| > |parent| + 1
    && child[|child| - |parent| - 1] == '.'
    && child[|child| - |parent|..] == parent
  }

  predicate IsApex(names: set<string>, n: string) {
    && (exists m :: m in names && IsChildOf(m, n))
    && !(exists m :: m in names && IsChildOf(n, m))
  }

  function ApexesOf(names: set<string>): set<string> {
    set n | n in names && IsApex(names, n)
  }

  method ClassifyNameTypes(names: set<string>) returns (apexes: set<string>)
    ensures apexes == ApexesOf(names)
  {
    apexes := {};
    var todo := names;
    while todo != {}
      invariant todo <= names
      invariant apexes == set n | n in names - todo && IsApex(names, n)
      decreases todo
    {
      var n :| n in todo;
      var hasChild, hasParent := false, false;
      var rest := names;
      while rest != {}
        invariant rest <= names
        invariant hasChild <==> exists m :: m in names - rest && IsChildOf(m, n)
        invariant hasParent <==> exists m :: m in names - rest && IsChildOf(n, m)
        decreases rest
      {
        var m :| m in rest;
        if m != n {
          if IsChildOf(m, n) {
            hasChild := true;
          }
          if IsChildOf(n, m) {
            hasParent := true;
          }
        }
        rest := rest - {m};
      }
      if hasChild && !hasParent {
        apexes := apexes + {n};
      }
      todo := todo - {n};
    }
  }

  lemma ChildOfChild(a: string, b: string, c: string)
    requires IsChildOf(a, b) && IsChildOf(b, c)
    ensures IsChildOf(a, c)
  {
    assert a[|a| - |b|..] == b;
    assert a[|a| - |c| - 1] == b[|b| - |c| - 1];
    assert a[|a| - |c|..] == a[|a| - |b|..][|b| - |c|..];
  }

  /** A child is a name with at least one more character in front of a dot and its parent. */
  lemma ChildReads(child: string, parent: string)
    ensures IsChildOf(child, parent) <==> exists labels :: labels != "" && child == labels + "." + parent
  {
    if IsChildOf(child, parent) {
      var labels := child[..|child| - |parent| - 1];
      assert child == labels + "." + parent;
    }
    if labels :| labels != "" && child == labels + "." + parent {
      assert child[|labels|] == (labels + ".")[|labels|];
      assert child[|labels| + 1..] == parent;
    }
  }

  /** No apex lies beneath another name of the estate, and none beneath another apex. */
  lemma ApexesAreUnrelated(names: set<string>, n: string, m: string)
    requires n in names && m in names && IsApex(names, n)
    ensures !IsChildOf(n, m)
    ensures forall k :: k in names && IsChildOf(m, n) && IsChildOf(k, m) ==> IsChildOf(k, n)
  {
    forall k | k in names && IsChildOf(m, n) && IsChildOf(k, m)
      ensures IsChildOf(k, n)
    {
      ChildOfChild(k, m, n);
    }
  }
}
