/**
  The coverage gap ledger (cmd/web/cold.go reachGapsAndMessages): services gapped by a blanket
  responder roll up under its address, services gapped by an outage are stated elsewhere, and the
  rest are sorted, reduced to one entry a service, capped, and their remainder counted.

  `cause` and `reason` stand for the decoding of a row's value.
*/
module GapLedger {
  import opened Sorting
  import opened Text
  import opened Wrappers

  const COVERAGE_GAP_LIST_CAP: nat := 50

  datatype GapRow = GapRow(key: string, value: string)

  datatype Cause = Blanket | VantageUnavailable | OtherCause

  datatype Decoder = Decoder(cause: string -> Cause, reason: string -> string)

  datatype Gap = NoOrigin(addr: string) | NoReading(subject: string)

  datatype Message = Message(gap: Gap, reason: string)

  // ---------------------------------------------------------------- service keys

  datatype ServiceKey = ServiceKey(addr: string, port: string, transport: string)

  /** Transport after the last slash, port after the last colon before it, address before that. */
  function SplitServiceKey(key: string): ServiceKey {
    LastIndexBound(key, '/');
    var slash := LastIndex(key, '/');
    var rest := if slash.Some? then key[..slash.value] else key;
    var transport := if slash.Some? then key[slash.value + 1..] else "";
    LastIndexBound(rest, ':');
    var colon := LastIndex(rest, ':');
    if colon.Some? then ServiceKey(rest[..colon.value], rest[colon.value + 1..], transport)
    else ServiceKey(rest, "", transport)
  }

  function ServiceCopyKey(k: ServiceKey): string {
    k.addr + (if k.port != "" then ":" + k.port else "") + (if k.transport != "" then " " + k.transport else "")
  }

  function AddrOf(key: string): string {
    SplitServiceKey(key).addr
  }

  function SubjectOf(key: string): string {
    ServiceCopyKey(SplitServiceKey(key))
  }

  /** A whole service key is its address, port and transport, even where the address itself holds
      colons, and its subject is written with a space for the slash. */
  lemma SubjectReads(addr: string, port: string, transport: string)
    requires '/' !in transport && ':' !in port
    requires port != "" && transport != ""
    ensures var key := addr + ":" + port + "/" + transport;
            && AddrOf(key) == addr
            && SubjectOf(key) == addr + ":" + port + " " + transport
  {
    var rest := addr + ":" + port;
    var key := rest + "/" + transport;
    LastIndexAfter(rest, '/', transport);
    assert key[..|rest|] == rest && key[|rest| + 1..] == transport;
    LastIndexAfter(addr, ':', port);
    assert rest[..|addr|] == addr && rest[|addr| + 1..] == port;
    assert addr + (":" + port) + (" " + transport) == addr + ":" + port + " " + transport;
  }

  /** A key without a port or without a transport is written without it. */
  lemma PartialSubjectReads(addr: string, port: string, transport: string)
    requires '/' !in addr && '/' !in port && '/' !in transport && ':' !in port
    requires port != "" && transport != ""
    ensures AddrOf(addr + ":" + port) == addr && SubjectOf(addr + ":" + port) == addr + ":" + port
    ensures ':' !in addr ==> AddrOf(addr + "/" + transport) == addr && SubjectOf(addr + "/" + transport) == addr + " " + transport
    ensures ':' !in addr ==> AddrOf(addr) == addr && SubjectOf(addr) == addr
  {
    var withPort, withTransport := addr + ":" + port, addr + "/" + transport;
    LastIndexAbsent(withPort, '/');
    LastIndexAfter(addr, ':', port);
    assert withPort[..|addr|] == addr && withPort[|addr| + 1..] == port;
    assert addr + (":" + port) + "" == withPort;
    if ':' !in addr {
      LastIndexAbsent(addr, '/');
      LastIndexAbsent(addr, ':');
      LastIndexAfter(addr, '/', transport);
      assert withTransport[..|addr|] == addr && withTransport[|addr| + 1..] == transport;
      assert addr + "" + (" " + transport) == addr + " " + transport;
      assert addr + "" + "" == addr;
    }
  }

  // ---------------------------------------------------------------- what the ledger is

  predicate IsBlanket(d: Decoder, row: GapRow) {
    d.cause(row.value) == Blanket && AddrOf(row.key) != ""
  }

  function BlanketedAddrs(d: Decoder, rows: seq<GapRow>): set<string> {
    set row | row in rows && IsBlanket(d, row) :: AddrOf(row.key)
  }

  function BlanketedServices(d: Decoder, rows: seq<GapRow>): set<string> {
    set row | row in rows && IsBlanket(d, row) :: row.key
  }

  /** A row with a blanket cause stands at the address. */
  ghost predicate AddrIsBlanketed(d: Decoder, rows: seq<GapRow>, a: string) {
    a != "" && exists i :: 0 <= i < |rows| && AddrOf(rows[i].key) == a && d.cause(rows[i].value) == Blanket
  }

  ghost predicate ServiceIsBlanketed(d: Decoder, rows: seq<GapRow>, key: string) {
    AddrOf(key) != "" && exists i :: 0 <= i < |rows| && rows[i].key == key && d.cause(rows[i].value) == Blanket
  }

  lemma BlanketsRead(d: Decoder, rows: seq<GapRow>)
    ensures forall a :: a in BlanketedAddrs(d, rows) <==> AddrIsBlanketed(d, rows, a)
    ensures forall key :: key in BlanketedServices(d, rows) <==> ServiceIsBlanketed(d, rows, key)
  {
    forall a
      ensures a in BlanketedAddrs(d, rows) <==> AddrIsBlanketed(d, rows, a)
    {
      BlanketedAddrReads(d, rows, a);
    }
    forall key
      ensures key in BlanketedServices(d, rows) <==> ServiceIsBlanketed(d, rows, key)
    {
      BlanketedServiceReads(d, rows, key);
    }
  }

  lemma BlanketedAddrReads(d: Decoder, rows: seq<GapRow>, a: string)
    ensures a in BlanketedAddrs(d, rows) <==> AddrIsBlanketed(d, rows, a)
  {
    if AddrIsBlanketed(d, rows, a) {
      var i :| 0 <= i < |rows| && AddrOf(rows[i].key) == a && d.cause(rows[i].value) == Blanket;
      assert rows[i] in rows && IsBlanket(d, rows[i]);
    }
  }

  lemma BlanketedServiceReads(d: Decoder, rows: seq<GapRow>, key: string)
    ensures key in BlanketedServices(d, rows) <==> ServiceIsBlanketed(d, rows, key)
  {
    if ServiceIsBlanketed(d, rows, key) {
      var i :| 0 <= i < |rows| && rows[i].key == key && d.cause(rows[i].value) == Blanket;
      assert rows[i] in rows && IsBlanket(d, rows[i]);
    }
  }

  /** A row that gets an entry of its own. */
  predicate IsOther(d: Decoder, blanketed: set<string>, row: GapRow) {
    AddrOf(row.key) != "" && row.key !in blanketed && d.cause(row.value) != VantageUnavailable
  }

  function OtherRows(d: Decoder, rows: seq<GapRow>): set<GapRow> {
    set row | row in rows && IsOther(d, BlanketedServices(d, rows), row)
  }

  function KeysOf(rows: set<GapRow>): set<string> {
    set row | row in rows :: row.key
  }

  function Keys(rows: seq<GapRow>): seq<string> {
    seq(|rows|, i requires 0 <= i < |rows| => rows[i].key)
  }

  /** Of a service's rows, the one whose value sorts first. */
  ghost predicate IsLeast(row: GapRow, rows: set<GapRow>) {
    row in rows && forall r :: r in rows && r.key == row.key ==> StrLeq(row.value, r.value)
  }

  /** One row a service, in key order, each the least of its service. */
  ghost predicate IsReduced(firsts: seq<GapRow>, rows: set<GapRow>) {
    && SortedListOf(Keys(firsts), KeysOf(rows))
    && forall i :: 0 <= i < |firsts| ==> IsLeast(firsts[i], rows)
  }

  function AddrGaps(addrs: seq<string>): seq<Gap> {
    if addrs == [] then [] else AddrGaps(addrs[..|addrs| - 1]) + [NoOrigin(addrs[|addrs| - 1])]
  }

  function AddrMessages(addrs: seq<string>): seq<Message> {
    if addrs == [] then [] else AddrMessages(addrs[..|addrs| - 1]) + [Message(NoOrigin(addrs[|addrs| - 1]), "")]
  }

  function ServiceGaps(firsts: seq<GapRow>): seq<Gap> {
    if firsts == [] then [] else ServiceGaps(firsts[..|firsts| - 1]) + [NoReading(SubjectOf(firsts[|firsts| - 1].key))]
  }

  function ServiceMessages(d: Decoder, firsts: seq<GapRow>): seq<Message> {
    if firsts == [] then []
    else
      var last := firsts[|firsts| - 1];
      ServiceMessages(d, firsts[..|firsts| - 1]) + [Message(NoReading(SubjectOf(last.key)), d.reason(last.value))]
  }

  function Listed(firsts: seq<GapRow>): seq<GapRow> {
    if |firsts| <= COVERAGE_GAP_LIST_CAP then firsts else firsts[..COVERAGE_GAP_LIST_CAP]
  }

  datatype Ledger = Ledger(gaps: seq<Gap>, messages: seq<Message>, omitted: nat)

  ghost predicate IsLedgerOf(d: Decoder, rows: seq<GapRow>, ledger: Ledger, addrs: seq<string>, firsts: seq<GapRow>) {
    && SortedListOf(addrs, BlanketedAddrs(d, rows))
    && IsReduced(firsts, OtherRows(d, rows))
    && ledger.gaps == AddrGaps(addrs) + ServiceGaps(Listed(firsts))
    && ledger.messages == AddrMessages(addrs) + ServiceMessages(d, Listed(firsts))
    && ledger.omitted == |firsts| - |Listed(firsts)|
  }

  ghost predicate IsLedger(d: Decoder, rows: seq<GapRow>, ledger: Ledger) {
    exists addrs, firsts :: IsLedgerOf(d, rows, ledger, addrs, firsts)
  }

  // ---------------------------------------------------------------- the loops

  predicate RowLeq(a: GapRow, b: GapRow) {
    if a.key != b.key then StrLeq(a.key, b.key) else StrLeq(a.value, b.value)
  }

  lemma RowOrderIsTotal()
    ensures TotalOrder(RowLeq)
  {
    StringOrderIsTotal();
    forall a, b, c | RowLeq(a, b) && RowLeq(b, c)
      ensures RowLeq(a, c)
    {
    }
    forall a, b | RowLeq(a, b) && RowLeq(b, a)
      ensures a == b
    {
    }
  }

  method RollUp(d: Decoder, rows: seq<GapRow>) returns (addrs: set<string>, services: set<string>)
    ensures addrs == BlanketedAddrs(d, rows) && services == BlanketedServices(d, rows)
    ensures forall a :: a in addrs <==> AddrIsBlanketed(d, rows, a)
    ensures forall key :: key in services <==> ServiceIsBlanketed(d, rows, key)
  {
    addrs, services := {}, {};
    for i := 0 to |rows|
      invariant addrs == BlanketedAddrs(d, rows[..i]) && services == BlanketedServices(d, rows[..i])
    {
      assert rows[..i + 1] == rows[..i] + [rows[i]];
      if d.cause(rows[i].value) != Blanket {
        continue;
      }
      var addr := AddrOf(rows[i].key);
      if addr != "" {
        addrs := addrs + {addr};
        services := services + {rows[i].key};
      }
    }
    assert rows[..|rows|] == rows;
    BlanketsRead(d, rows);
  }

  method KeepOthers(d: Decoder, rows: seq<GapRow>, blanketed: set<string>) returns (others: seq<GapRow>)
    ensures ToSet(others) == set row | row in rows && IsOther(d, blanketed, row)
  {
    others := [];
    for i := 0 to |rows|
      invariant ToSet(others) == set row | row in rows[..i] && IsOther(d, blanketed, row)
    {
      assert rows[..i + 1] == rows[..i] + [rows[i]];
      if AddrOf(rows[i].key) == "" {
        continue;
      }
      if rows[i].key in blanketed {
        continue;
      }
      if d.cause(rows[i].value) == VantageUnavailable {
        continue;
      }
      assert ToSet(others + [rows[i]]) == ToSet(others) + {rows[i]};
      others := others + [rows[i]];
    }
    assert rows[..|rows|] == rows;
  }

  /** The first rows of the services met so far in a sorted list. */
  ghost predicate FirstsOf(firsts: seq<GapRow>, sorted: seq<GapRow>) {
    && SortedListOf(Keys(firsts), KeysOf(ToSet(sorted)))
    && forall i :: 0 <= i < |firsts| ==> IsLeast(firsts[i], ToSet(sorted))
  }

  lemma SortedPrefix(sorted: seq<GapRow>, i: nat)
    requires i < |sorted| && SortedBy(RowLeq, sorted)
    ensures forall r :: r in sorted[..i] ==> RowLeq(r, sorted[i])
    ensures ToSet(sorted[..i + 1]) == ToSet(sorted[..i]) + {sorted[i]}
  {
    assert sorted[..i + 1] == sorted[..i] + [sorted[i]];
  }

  /** A row of a service already met changes no first row. */
  lemma SameServiceKeepsFirsts(firsts: seq<GapRow>, sorted: seq<GapRow>, i: nat)
    requires i < |sorted| && SortedBy(RowLeq, sorted)
    requires FirstsOf(firsts, sorted[..i]) && sorted[i].key in KeysOf(ToSet(sorted[..i]))
    ensures FirstsOf(firsts, sorted[..i + 1])
  {
    SortedPrefix(sorted, i);
    assert KeysOf(ToSet(sorted[..i + 1])) == KeysOf(ToSet(sorted[..i]));
    forall k | 0 <= k < |firsts|
      ensures IsLeast(firsts[k], ToSet(sorted[..i + 1]))
    {
      assert IsLeast(firsts[k], ToSet(sorted[..i]));
      assert firsts[k] in sorted[..i];
      assert RowLeq(firsts[k], sorted[i]);
    }
  }

  lemma KeysSnoc(firsts: seq<GapRow>, row: GapRow)
    ensures Keys(firsts + [row]) == Keys(firsts) + [row.key]
  {
  }

  /** The first row of a new service goes to the end, and is that service's least. */
  lemma NewServiceExtendsFirsts(firsts: seq<GapRow>, sorted: seq<GapRow>, i: nat)
    requires i < |sorted| && SortedBy(RowLeq, sorted)
    requires FirstsOf(firsts, sorted[..i]) && sorted[i].key !in KeysOf(ToSet(sorted[..i]))
    ensures FirstsOf(firsts + [sorted[i]], sorted[..i + 1])
  {
    var row, before := sorted[i], ToSet(sorted[..i]);
    SortedPrefix(sorted, i);
    StringOrderIsTotal();
    KeysSnoc(firsts, row);
    assert KeysOf(ToSet(sorted[..i + 1])) == KeysOf(before) + {row.key};
    ExtendSortedList(Keys(firsts), KeysOf(before), row.key);
    forall k | 0 <= k < |firsts|
      ensures IsLeast(firsts[k], ToSet(sorted[..i + 1]))
    {
      assert IsLeast(firsts[k], before);
      assert firsts[k].key in KeysOf(before);
    }
    assert forall r :: r in before ==> r.key in KeysOf(before);
  }

  lemma ExtendSortedList(list: seq<string>, keys: set<string>, k: string)
    requires SortedListOf(list, keys) && k !in keys
    requires forall x :: x in keys ==> StrLeq(x, k)
    ensures SortedListOf(list + [k], keys + {k})
  {
    assert forall x :: x in list ==> x in ToSet(list);
    assert ToSet(list + [k]) == ToSet(list) + {k};
  }

  /** Where the pass stands before row `i`: `seen` holds the services of `firsts`. */
  ghost predicate Seen(firsts: seq<GapRow>, sorted: seq<GapRow>, i: nat, seen: set<string>) {
    && i <= |sorted|
    && FirstsOf(firsts, sorted[..i])
    && seen == KeysOf(ToSet(sorted[..i]))
    && |seen| == |firsts|
  }

  /** One row more of the sorted list: its service is met already, or its first row goes to the end. */
  lemma Advance(firsts: seq<GapRow>, sorted: seq<GapRow>, i: nat, seen: set<string>)
    requires i < |sorted| && SortedBy(RowLeq, sorted)
    requires Seen(firsts, sorted, i, seen)
    ensures if sorted[i].key in seen then Seen(firsts, sorted, i + 1, seen)
            else Seen(firsts + [sorted[i]], sorted, i + 1, seen + {sorted[i].key})
  {
    SortedPrefix(sorted, i);
    if sorted[i].key in seen {
      SameServiceKeepsFirsts(firsts, sorted, i);
    } else {
      NewServiceExtendsFirsts(firsts, sorted, i);
    }
    KeysGrow(ToSet(sorted[..i]), sorted[i]);
  }

  lemma KeysGrow(rows: set<GapRow>, row: GapRow)
    ensures KeysOf(rows + {row}) == KeysOf(rows) + {row.key}
  {
  }

  /** The lists after one more service: longer by its entry, or full. */
  ghost predicate ListsAre(d: Decoder, firsts: seq<GapRow>, gaps: seq<Gap>, msgs: seq<Message>, omitted: nat) {
    && gaps == ServiceGaps(Listed(firsts))
    && msgs == ServiceMessages(d, Listed(firsts))
    && omitted == |firsts| - |Listed(firsts)|
  }

  lemma ListsGrow(d: Decoder, firsts: seq<GapRow>, gaps: seq<Gap>, msgs: seq<Message>, omitted: nat, row: GapRow)
    requires ListsAre(d, firsts, gaps, msgs, omitted)
    ensures if |firsts| < COVERAGE_GAP_LIST_CAP
            then ListsAre(d, firsts + [row], gaps + [NoReading(SubjectOf(row.key))],
                          msgs + [Message(NoReading(SubjectOf(row.key)), d.reason(row.value))], omitted)
            else ListsAre(d, firsts + [row], gaps, msgs, omitted + 1)
  {
    var longer := firsts + [row];
    if |firsts| < COVERAGE_GAP_LIST_CAP {
      assert Listed(longer) == longer && Listed(firsts) == firsts;
      assert longer[..|longer| - 1] == firsts;
    } else {
      assert Listed(longer) == Listed(firsts);
    }
  }

  /** The pass before row `i`: what is seen, and the lists of what was seen first. */
  ghost predicate Passed(d: Decoder, sorted: seq<GapRow>, i: nat, seen: set<string>, firsts: seq<GapRow>,
                         gaps: seq<Gap>, msgs: seq<Message>, omitted: nat) {
    Seen(firsts, sorted, i, seen) && ListsAre(d, firsts, gaps, msgs, omitted)
  }

  lemma PassGrows(d: Decoder, sorted: seq<GapRow>, i: nat, seen: set<string>, firsts: seq<GapRow>,
                  gaps: seq<Gap>, msgs: seq<Message>, omitted: nat)
    requires i < |sorted| && SortedBy(RowLeq, sorted)
    requires Passed(d, sorted, i, seen, firsts, gaps, msgs, omitted)
    ensures var row, next := sorted[i], i + 1;
            var all, longer := seen + {row.key}, firsts + [row];
            if row.key in seen then Passed(d, sorted, next, seen, firsts, gaps, msgs, omitted)
            else if |all| > COVERAGE_GAP_LIST_CAP then Passed(d, sorted, next, all, longer, gaps, msgs, omitted + 1)
            else Passed(d, sorted, next, all, longer, gaps + [NoReading(SubjectOf(row.key))],
                        msgs + [Message(NoReading(SubjectOf(row.key)), d.reason(row.value))], omitted)
  {
    Advance(firsts, sorted, i, seen);
    ListsGrow(d, firsts, gaps, msgs, omitted, sorted[i]);
  }

  /** The deduplicating pass over the sorted rows, with its cap and its remainder. */
  method ListServices(d: Decoder, sorted: seq<GapRow>) returns (gaps: seq<Gap>, msgs: seq<Message>, omitted: nat, ghost firsts: seq<GapRow>)
    requires SortedBy(RowLeq, sorted)
    ensures FirstsOf(firsts, sorted)
    ensures ListsAre(d, firsts, gaps, msgs, omitted)
  {
    gaps, msgs, omitted, firsts := [], [], 0, [];
    var seen: set<string> := {};
    for i := 0 to |sorted|
      invariant Passed(d, sorted, i, seen, firsts, gaps, msgs, omitted)
    {
      var row := sorted[i];
      PassGrows(d, sorted, i, seen, firsts, gaps, msgs, omitted);
      if row.key in seen {
        continue;
      }
      firsts := firsts + [row];
      seen := seen + {row.key};
      if |seen| > COVERAGE_GAP_LIST_CAP {
        omitted := omitted + 1;
        continue;
      }
      var subject := SubjectOf(row.key);
      gaps := gaps + [NoReading(subject)];
      msgs := msgs + [Message(NoReading(subject), d.reason(row.value))];
    }
    assert sorted[..|sorted|] == sorted;
  }

  method ReachGapsAndMessages(d: Decoder, rows: seq<GapRow>) returns (ledger: Ledger)
    ensures IsLedger(d, rows, ledger)
  {
    var blanketed, services := RollUp(d, rows);
    var addrs := SortedKeys(blanketed);
    var gaps, msgs := [], [];
    for i := 0 to |addrs|
      invariant gaps == AddrGaps(addrs[..i]) && msgs == AddrMessages(addrs[..i])
    {
      assert addrs[..i + 1][..i] == addrs[..i];
      gaps := gaps + [NoOrigin(addrs[i])];
      msgs := msgs + [Message(NoOrigin(addrs[i]), "")];
    }
    assert addrs[..|addrs|] == addrs;
    var others := KeepOthers(d, rows, services);
    RowOrderIsTotal();
    TotalIsPreorder(RowLeq);
    SortSorts(RowLeq, others);
    var sorted := Sort(RowLeq, others);
    SameMembers(others, sorted);
    ghost var firsts;
    var serviceGaps, serviceMsgs, omitted;
    serviceGaps, serviceMsgs, omitted, firsts := ListServices(d, sorted);
    ledger := Ledger(gaps + serviceGaps, msgs + serviceMsgs, omitted);
    assert IsLedgerOf(d, rows, ledger, addrs, firsts);
  }

  lemma SameMembers(a: seq<GapRow>, b: seq<GapRow>)
    requires multiset(a) == multiset(b)
    ensures ToSet(a) == ToSet(b)
  {
    forall r ensures r in a <==> r in b { assert r in multiset(a) <==> r in multiset(b); }
  }

  // ---------------------------------------------------------------- what it promises

  lemma ReducedIsUnique(a: seq<GapRow>, b: seq<GapRow>, rows: set<GapRow>)
    requires IsReduced(a, rows) && IsReduced(b, rows)
    ensures a == b
  {
    SortedListIsUnique(Keys(a), Keys(b), KeysOf(rows));
    StringOrderIsTotal();
    assert |a| == |Keys(a)| == |b|;
    forall i | 0 <= i < |a|
      ensures a[i] == b[i]
    {
      assert a[i].key == Keys(a)[i] == Keys(b)[i] == b[i].key;
      assert IsLeast(a[i], rows) && IsLeast(b[i], rows);
    }
  }

  lemma SameRowsSameSets(d: Decoder, a: seq<GapRow>, b: seq<GapRow>)
    requires multiset(a) == multiset(b)
    ensures BlanketedAddrs(d, a) == BlanketedAddrs(d, b) && OtherRows(d, a) == OtherRows(d, b)
  {
    forall r ensures r in a <==> r in b { assert r in multiset(a) <==> r in multiset(b); }
    assert BlanketedServices(d, a) == BlanketedServices(d, b);
  }

  /** The ledger is unchanged by any permutation of its rows. */
  lemma LedgerIgnoresOrder(d: Decoder, a: seq<GapRow>, b: seq<GapRow>, p: Ledger, q: Ledger)
    requires multiset(a) == multiset(b)
    requires IsLedger(d, a, p) && IsLedger(d, b, q)
    ensures p == q
  {
    var addrs, firsts :| IsLedgerOf(d, a, p, addrs, firsts);
    var addrs', firsts' :| IsLedgerOf(d, b, q, addrs', firsts');
    SameRowsSameSets(d, a, b);
    SortedListIsUnique(addrs, addrs', BlanketedAddrs(d, a));
    ReducedIsUnique(firsts, firsts', OtherRows(d, a));
  }

  datatype Place = RolledUp | OutageOnly | ListedAt | OmittedAt

  ghost predicate Placed(d: Decoder, rows: seq<GapRow>, firsts: seq<GapRow>, key: string, place: Place) {
    match place
    case RolledUp => key in BlanketedServices(d, rows)
    case OutageOnly =>
      && key !in BlanketedServices(d, rows)
      && forall r :: r in rows && r.key == key ==> d.cause(r.value) == VantageUnavailable
    case ListedAt => exists i :: 0 <= i < |Listed(firsts)| && firsts[i].key == key
    case OmittedAt => exists i :: |Listed(firsts)| <= i < |firsts| && firsts[i].key == key
  }

  /** A rolled-up service has no row among the others, and neither has an outage-only one. */
  lemma OthersHoldKey(d: Decoder, rows: seq<GapRow>, key: string)
    requires AddrOf(key) != ""
    ensures key in KeysOf(OtherRows(d, rows)) <==>
            !Placed(d, rows, [], key, RolledUp) && !Placed(d, rows, [], key, OutageOnly)
  {
    if !Placed(d, rows, [], key, RolledUp) && !Placed(d, rows, [], key, OutageOnly) {
      var r :| r in rows && r.key == key && d.cause(r.value) != VantageUnavailable;
      assert r in OtherRows(d, rows);
    }
  }

  lemma SomePlace(d: Decoder, rows: seq<GapRow>, firsts: seq<GapRow>, key: string)
    requires IsReduced(firsts, OtherRows(d, rows)) && AddrOf(key) != ""
    ensures exists place :: Placed(d, rows, firsts, key, place)
  {
    FirstsCover(firsts, OtherRows(d, rows), key);
    OthersHoldKey(d, rows, key);
    if key in KeysOf(OtherRows(d, rows)) {
      var i :| 0 <= i < |firsts| && firsts[i].key == key;
      assert Placed(d, rows, firsts, key, if i < |Listed(firsts)| then ListedAt else OmittedAt);
    } else {
      assert Placed(d, rows, firsts, key, if Placed(d, rows, [], key, RolledUp) then RolledUp else OutageOnly);
    }
  }

  lemma OnePlace(d: Decoder, rows: seq<GapRow>, firsts: seq<GapRow>, key: string, p: Place, q: Place)
    requires IsReduced(firsts, OtherRows(d, rows)) && AddrOf(key) != ""
    requires Placed(d, rows, firsts, key, p) && Placed(d, rows, firsts, key, q)
    ensures p == q
  {
    FirstsCover(firsts, OtherRows(d, rows), key);
    OthersHoldKey(d, rows, key);
  }

  /** An address without an origin, and no reason. */
  predicate IsAddrEntry(addr: string, gap: Gap, msg: Message) {
    gap == NoOrigin(addr) && msg == Message(gap, "")
  }

  /** A service without a reading, and the reason its row records. */
  predicate IsServiceEntry(d: Decoder, row: GapRow, gap: Gap, msg: Message) {
    gap == NoReading(SubjectOf(row.key)) && msg == Message(gap, d.reason(row.value))
  }

  lemma {:induction false} AddrEntries(addrs: seq<string>)
    ensures |AddrGaps(addrs)| == |AddrMessages(addrs)| == |addrs|
    ensures forall k :: 0 <= k < |addrs| ==> IsAddrEntry(addrs[k], AddrGaps(addrs)[k], AddrMessages(addrs)[k])
  {
    if addrs != [] {
      var n := |addrs| - 1;
      AddrEntries(addrs[..n]);
      assert IsAddrEntry(addrs[n], AddrGaps(addrs)[n], AddrMessages(addrs)[n]);
    }
  }

  lemma {:induction false} ServiceEntryAt(d: Decoder, firsts: seq<GapRow>, k: nat)
    requires k < |firsts|
    ensures |ServiceGaps(firsts)| == |ServiceMessages(d, firsts)| == |firsts|
    ensures IsServiceEntry(d, firsts[k], ServiceGaps(firsts)[k], ServiceMessages(d, firsts)[k])
  {
    var n := |firsts| - 1;
    ServicesPaired(d, firsts);
    ServicesPaired(d, firsts[..n]);
    if k < n {
      ServiceEntryAt(d, firsts[..n], k);
    }
  }

  /** The ledger's entries: the addresses in order, and behind them the first 50 services. */
  ghost predicate HasEntries(d: Decoder, ledger: Ledger, addrs: seq<string>, firsts: seq<GapRow>) {
    && |ledger.gaps| == |ledger.messages| == |addrs| + (if |firsts| <= 50 then |firsts| else 50)
    && (forall k :: 0 <= k < |addrs| ==> IsAddrEntry(addrs[k], ledger.gaps[k], ledger.messages[k]))
    && (forall k :: 0 <= k < |ledger.gaps| - |addrs| ==>
          IsServiceEntry(d, firsts[k], ledger.gaps[|addrs| + k], ledger.messages[|addrs| + k]))
  }

  lemma LedgerEntries(d: Decoder, rows: seq<GapRow>, ledger: Ledger, addrs: seq<string>, firsts: seq<GapRow>)
    requires IsLedgerOf(d, rows, ledger, addrs, firsts)
    ensures HasEntries(d, ledger, addrs, firsts)
  {
    AddrEntries(addrs);
    ServicesPaired(d, Listed(firsts));
    forall k | 0 <= k < |Listed(firsts)|
      ensures IsServiceEntry(d, firsts[k], ledger.gaps[|addrs| + k], ledger.messages[|addrs| + k])
    {
      ServiceEntryAt(d, Listed(firsts), k);
    }
  }

  /** The entry a place in the ledger makes of a service: its address without an origin, or the service
      itself without a reading, under the reason of its row that sorts first. */
  ghost predicate EnteredAs(d: Decoder, rows: seq<GapRow>, ledger: Ledger, key: string, place: Place) {
    match place
    case RolledUp =>
      NoOrigin(AddrOf(key)) in ledger.gaps && Message(NoOrigin(AddrOf(key)), "") in ledger.messages
    case ListedAt => exists row: GapRow ::
      && row.key == key && IsLeast(row, OtherRows(d, rows))
      && NoReading(SubjectOf(key)) in ledger.gaps
      && Message(NoReading(SubjectOf(key)), d.reason(row.value)) in ledger.messages
    case OutageOnly => true
    case OmittedAt => ledger.omitted > 0
  }

  lemma PlaceIsEntered(d: Decoder, rows: seq<GapRow>, ledger: Ledger, addrs: seq<string>, firsts: seq<GapRow>, key: string,
                       place: Place)
    requires IsLedgerOf(d, rows, ledger, addrs, firsts) && Placed(d, rows, firsts, key, place)
    ensures EnteredAs(d, rows, ledger, key, place)
  {
    LedgerEntries(d, rows, ledger, addrs, firsts);
    match place
    case RolledUp => AddressIsEntered(d, rows, ledger, addrs, firsts, key);
    case ListedAt => ServiceIsEntered(d, rows, ledger, addrs, firsts, key);
    case OutageOnly =>
    case OmittedAt =>
  }

  lemma AddressIsEntered(d: Decoder, rows: seq<GapRow>, ledger: Ledger, addrs: seq<string>, firsts: seq<GapRow>, key: string)
    requires HasEntries(d, ledger, addrs, firsts) && SortedListOf(addrs, BlanketedAddrs(d, rows))
    requires key in BlanketedServices(d, rows)
    ensures EnteredAs(d, rows, ledger, key, RolledUp)
  {
    assert AddrOf(key) in ToSet(addrs);
    var k :| 0 <= k < |addrs| && addrs[k] == AddrOf(key);
    assert IsAddrEntry(addrs[k], ledger.gaps[k], ledger.messages[k]);
  }

  lemma ServiceIsEntered(d: Decoder, rows: seq<GapRow>, ledger: Ledger, addrs: seq<string>, firsts: seq<GapRow>, key: string)
    requires HasEntries(d, ledger, addrs, firsts) && IsReduced(firsts, OtherRows(d, rows))
    requires Placed(d, rows, firsts, key, ListedAt)
    ensures EnteredAs(d, rows, ledger, key, ListedAt)
  {
    var i :| 0 <= i < |Listed(firsts)| && firsts[i].key == key;
    assert IsServiceEntry(d, firsts[i], ledger.gaps[|addrs| + i], ledger.messages[|addrs| + i]);
    assert IsLeast(firsts[i], OtherRows(d, rows));
  }

  /** Every service with an address that has a row falls in exactly one place: rolled up under an
      address that has its entry, gapped by outages alone, listed with its own entry and reason, or
      counted as omitted. */
  lemma EveryServiceHasOnePlace(d: Decoder, rows: seq<GapRow>, ledger: Ledger, addrs: seq<string>, firsts: seq<GapRow>, row: GapRow)
    requires IsLedgerOf(d, rows, ledger, addrs, firsts)
    requires row in rows && AddrOf(row.key) != ""
    ensures exists place :: Placed(d, rows, firsts, row.key, place)
    ensures forall p, q :: Placed(d, rows, firsts, row.key, p) && Placed(d, rows, firsts, row.key, q) ==> p == q
    ensures forall place :: Placed(d, rows, firsts, row.key, place) ==> EnteredAs(d, rows, ledger, row.key, place)
  {
    SomePlace(d, rows, firsts, row.key);
    forall p, q | Placed(d, rows, firsts, row.key, p) && Placed(d, rows, firsts, row.key, q)
      ensures p == q
    {
      OnePlace(d, rows, firsts, row.key, p, q);
    }
    forall place | Placed(d, rows, firsts, row.key, place)
      ensures EnteredAs(d, rows, ledger, row.key, place)
    {
      PlaceIsEntered(d, rows, ledger, addrs, firsts, row.key, place);
    }
  }

  lemma FirstsCover(firsts: seq<GapRow>, others: set<GapRow>, key: string)
    requires IsReduced(firsts, others)
    ensures key in KeysOf(others) <==> exists i :: 0 <= i < |firsts| && firsts[i].key == key
    ensures forall i, j :: 0 <= i < j < |firsts| ==> firsts[i].key != firsts[j].key
  {
    if key in KeysOf(others) {
      assert key in ToSet(Keys(firsts));
      var i :| 0 <= i < |Keys(firsts)| && Keys(firsts)[i] == key;
      assert firsts[i].key == key;
    }
    if i :| 0 <= i < |firsts| && firsts[i].key == key {
      assert Keys(firsts)[i] == key;
      assert key in ToSet(Keys(firsts));
    }
    forall i, j | 0 <= i < j < |firsts|
      ensures firsts[i].key != firsts[j].key
    {
      assert Keys(firsts)[i] != Keys(firsts)[j];
    }
  }

  ghost predicate Paired(gaps: seq<Gap>, msgs: seq<Message>) {
    |gaps| == |msgs| && forall i :: 0 <= i < |gaps| ==> msgs[i].gap == gaps[i]
  }

  lemma {:induction false} AddrsPaired(addrs: seq<string>)
    ensures Paired(AddrGaps(addrs), AddrMessages(addrs)) && |AddrGaps(addrs)| == |addrs|
  {
    if addrs != [] {
      AddrsPaired(addrs[..|addrs| - 1]);
    }
  }

  lemma {:induction false} ServicesPaired(d: Decoder, firsts: seq<GapRow>)
    ensures Paired(ServiceGaps(firsts), ServiceMessages(d, firsts)) && |ServiceGaps(firsts)| == |firsts|
  {
    if firsts != [] {
      ServicesPaired(d, firsts[..|firsts| - 1]);
    }
  }

  lemma PairedConcat(g: seq<Gap>, h: seq<Gap>, m: seq<Message>, n: seq<Message>)
    requires Paired(g, m) && Paired(h, n)
    ensures Paired(g + h, m + n)
  {
  }

  lemma ReducedCount(firsts: seq<GapRow>, rows: set<GapRow>)
    requires IsReduced(firsts, rows)
    ensures |firsts| == |KeysOf(rows)|
  {
    SortedListCount(Keys(firsts), KeysOf(rows));
  }

  /** One message a gap, in the same order; at most 50 services listed, and a remainder only when the
      list is full. */
  lemma LedgerCounts(d: Decoder, rows: seq<GapRow>, ledger: Ledger, addrs: seq<string>, firsts: seq<GapRow>)
    requires IsLedgerOf(d, rows, ledger, addrs, firsts)
    ensures Paired(ledger.gaps, ledger.messages)
    ensures |ledger.gaps| == |BlanketedAddrs(d, rows)| + |Listed(firsts)| && |Listed(firsts)| <= COVERAGE_GAP_LIST_CAP
    ensures |Listed(firsts)| + ledger.omitted == |KeysOf(OtherRows(d, rows))|
    ensures ledger.omitted > 0 ==> |Listed(firsts)| == COVERAGE_GAP_LIST_CAP
  {
    AddrsPaired(addrs);
    ServicesPaired(d, Listed(firsts));
    PairedConcat(AddrGaps(addrs), ServiceGaps(Listed(firsts)), AddrMessages(addrs), ServiceMessages(d, Listed(firsts)));
    ReducedCount(firsts, OtherRows(d, rows));
    SortedListCount(addrs, BlanketedAddrs(d, rows));
  }
}
