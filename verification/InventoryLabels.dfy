/**
  The rows the inventory lists and how each is labelled (cmd/web/inventory.go): facet, then the vantage
  class it was read from, then the vantage's own name when another row competes for the same class.
*/
module InventoryLabels {
  import opened Wrappers

  datatype Kind = Name | Service | Endpoint | Address | OtherKind(text: string)

  datatype Facet = Resolution | DnsRecord | Reachability | TlsAcceptance | Certificate | HttpIdentity | OtherFacet(text: string)

  datatype VantageClass = Internet | Internal | Unverified

  datatype Vantage = Vantage(class_: Option<VantageClass>, name: string)

  /** One open span; `blanket` is whether its value names the blanket responder as its cause. */
  datatype Row = Row(kind: Kind, key: string, facet: Facet, discriminator: string, vantage: Option<int>,
                     isGap: bool, blanket: bool, since: string)

  datatype FacetRow = FacetRow(caption: string, isGap: bool, proxyEdge: bool, since: string, facet: Facet)

  type Vantages = map<int, Vantage>

  // ---------------------------------------------------------------- labels

  datatype Reading = Reading(class_: VantageClass, name: string)

  /** The class and vantage a row is read from, when it has no discriminator and a known class. */
  function RowReading(row: Row, vantages: Vantages): Option<Reading> {
    if row.discriminator != "" || row.vantage.None? || row.vantage.value !in vantages then None
    else
      var v := vantages[row.vantage.value];
      if v.class_.None? then None else Some(Reading(v.class_.value, v.name))
  }

  datatype ClassKey = ClassKey(kind: Kind, key: string, facet: Facet, class_: VantageClass)

  function RowClassKey(row: Row, vantages: Vantages): Option<ClassKey> {
    var r := RowReading(row, vantages);
    if r.None? then None else Some(ClassKey(row.kind, row.key, row.facet, r.value.class_))
  }

  function TieCount(rows: seq<Row>, vantages: Vantages, k: ClassKey): nat {
    if rows == [] then 0
    else TieCount(rows[..|rows| - 1], vantages, k) + if RowClassKey(rows[|rows| - 1], vantages) == Some(k) then 1 else 0
  }

  type Ties = map<ClassKey, nat>

  function TiesAt(ties: Ties, k: ClassKey): nat {
    if k in ties then ties[k] else 0
  }

  ghost predicate AreTies(ties: Ties, rows: seq<Row>, vantages: Vantages) {
    forall k :: TiesAt(ties, k) == TieCount(rows, vantages, k)
  }

  /** The rows of one subject, facet and class. */
  function TiedRows(rows: seq<Row>, vantages: Vantages, k: ClassKey): set<int> {
    set i | 0 <= i < |rows| && RowClassKey(rows[i], vantages) == Some(k)
  }

  lemma {:induction false} TieCountIsCardinality(rows: seq<Row>, vantages: Vantages, k: ClassKey)
    ensures TieCount(rows, vantages, k) == |TiedRows(rows, vantages, k)|
  {
    if rows == [] {
      assert TiedRows(rows, vantages, k) == {};
    } else {
      var n := |rows| - 1;
      TieCountIsCardinality(rows[..n], vantages, k);
      var before := TiedRows(rows[..n], vantages, k);
      assert TiedRows(rows, vantages, k) == if RowClassKey(rows[n], vantages) == Some(k) then before + {n} else before;
    }
  }

  method InventoryClassTies(rows: seq<Row>, vantages: Vantages) returns (ties: Ties)
    ensures AreTies(ties, rows, vantages)
    ensures forall k :: TiesAt(ties, k) == |TiedRows(rows, vantages, k)|
  {
    ties := map[];
    for i := 0 to |rows|
      invariant AreTies(ties, rows[..i], vantages)
    {
      assert rows[..i + 1][..i] == rows[..i];
      var k := RowClassKey(rows[i], vantages);
      if k.None? {
        continue;
      }
      ties := ties[k.value := TiesAt(ties, k.value) + 1];
    }
    assert rows[..|rows|] == rows;
    forall k
      ensures TieCount(rows, vantages, k) == |TiedRows(rows, vantages, k)|
    {
      TieCountIsCardinality(rows, vantages, k);
    }
  }

  function ClassText(c: VantageClass): string {
    match c
    case Internet => "internet"
    case Internal => "internal"
    case Unverified => "unverified"
  }

  function DisplayFacet(f: Facet): string {
    match f
    case Resolution => "resolution"
    case DnsRecord => "dns-records"
    case Reachability => "reachability"
    case TlsAcceptance => "tls-acceptance"
    case Certificate => "certificate-chain"
    case HttpIdentity => "http-identity"
    case OtherFacet(text) => text
  }

  const DOT := " · "

  function FacetLabel(facet: Facet, discriminator: string, reading: Option<Reading>, named: bool): string {
    if discriminator != "" then DisplayFacet(facet) + DOT + discriminator
    else if reading.None? then DisplayFacet(facet)
    else if named && reading.value.name != "" then
      DisplayFacet(facet) + DOT + (ClassText(reading.value.class_) + DOT + reading.value.name)
    else DisplayFacet(facet) + DOT + ClassText(reading.value.class_)
  }

  /** A row names its vantage only when another row of its subject, facet and class competes with it. */
  function RowLabel(row: Row, vantages: Vantages, ties: Ties): string {
    var k := RowClassKey(row, vantages);
    FacetLabel(row.facet, row.discriminator, RowReading(row, vantages), k.Some? && TiesAt(ties, k.value) >= 2)
  }

  function FacetOf(row: Row, vantages: Vantages, ties: Ties): FacetRow {
    FacetRow(RowLabel(row, vantages, ties), row.isGap, row.isGap && row.facet == Reachability && row.blanket, row.since, row.facet)
  }

  lemma {:induction false} TieCountTwo(rows: seq<Row>, vantages: Vantages, k: ClassKey, i: nat, j: nat)
    requires i < j < |rows|
    requires RowClassKey(rows[i], vantages) == Some(k) && RowClassKey(rows[j], vantages) == Some(k)
    ensures TieCount(rows, vantages, k) >= 2
  {
    var prev := rows[..|rows| - 1];
    if j < |rows| - 1 {
      TieCountTwo(prev, vantages, k, i, j);
    } else {
      TieCountOne(prev, vantages, k, i);
    }
  }

  lemma {:induction false} TieCountOne(rows: seq<Row>, vantages: Vantages, k: ClassKey, i: nat)
    requires i < |rows| && RowClassKey(rows[i], vantages) == Some(k)
    ensures TieCount(rows, vantages, k) >= 1
  {
    if i < |rows| - 1 {
      TieCountOne(rows[..|rows| - 1], vantages, k, i);
    }
  }

  lemma SamePrefix(front: string, a: string, b: string)
    ensures front + a == front + b <==> a == b
  {
    if front + a == front + b {
      assert a == (front + a)[|front|..];
      assert b == (front + b)[|front|..];
    }
  }

  /** No class's text is the start of another class's label. */
  lemma ClassTextsDiffer(a: VantageClass, b: VantageClass, s: string, t: string)
    requires a != b
    ensures ClassText(a) + s != ClassText(b) + t
  {
    var x, y := ClassText(a) + s, ClassText(b) + t;
    assert x[0] == ClassText(a)[0] && y[0] == ClassText(b)[0];
    assert x[6] == ClassText(a)[6] && y[6] == ClassText(b)[6];
  }

  lemma NameSuffixesDiffer(a: string, b: string)
    requires a != b
    ensures (if a != "" then DOT + a else "") != (if b != "" then DOT + b else "")
  {
    SamePrefix(DOT, a, b);
  }

  function NamedSuffix(r: Reading, named: bool): string {
    if named && r.name != "" then DOT + r.name else ""
  }

  lemma LabelShape(row: Row, vantages: Vantages, ties: Ties)
    requires RowReading(row, vantages).Some?
    ensures var r := RowReading(row, vantages).value;
            var named := TiesAt(ties, ClassKey(row.kind, row.key, row.facet, r.class_)) >= 2;
            RowLabel(row, vantages, ties) == DisplayFacet(row.facet) + DOT + (ClassText(r.class_) + NamedSuffix(r, named))
  {
    var r := RowReading(row, vantages).value;
    assert ClassText(r.class_) + "" == ClassText(r.class_);
    assert ClassText(r.class_) + DOT + r.name == ClassText(r.class_) + (DOT + r.name);
  }

  /** Two rows of one subject and facet, read from distinctly named vantages of known class and with no
      discriminator, never carry the same label. */
  lemma LabelsTellVantagesApart(rows: seq<Row>, vantages: Vantages, ties: Ties, i: nat, j: nat)
    requires AreTies(ties, rows, vantages)
    requires i < |rows| && j < |rows| && i != j
    requires rows[i].kind == rows[j].kind && rows[i].key == rows[j].key && rows[i].facet == rows[j].facet
    requires RowReading(rows[i], vantages).Some? && RowReading(rows[j], vantages).Some?
    requires RowReading(rows[i], vantages).value.name != RowReading(rows[j], vantages).value.name
    ensures RowLabel(rows[i], vantages, ties) != RowLabel(rows[j], vantages, ties)
  {
    var a, b := RowReading(rows[i], vantages).value, RowReading(rows[j], vantages).value;
    var k := ClassKey(rows[i].kind, rows[i].key, rows[i].facet, a.class_);
    var l := ClassKey(rows[j].kind, rows[j].key, rows[j].facet, b.class_);
    LabelShape(rows[i], vantages, ties);
    LabelShape(rows[j], vantages, ties);
    var s, t := NamedSuffix(a, TiesAt(ties, k) >= 2), NamedSuffix(b, TiesAt(ties, l) >= 2);
    SamePrefix(DisplayFacet(rows[i].facet) + DOT, ClassText(a.class_) + s, ClassText(b.class_) + t);
    if a.class_ != b.class_ {
      ClassTextsDiffer(a.class_, b.class_, s, t);
    } else {
      if i < j {
        TieCountTwo(rows, vantages, k, i, j);
      } else {
        TieCountTwo(rows, vantages, k, j, i);
      }
      assert TiesAt(ties, k) == TieCount(rows, vantages, k);
      NameSuffixesDiffer(a.name, b.name);
      SamePrefix(ClassText(a.class_), s, t);
    }
  }

  /** Another row of the same subject and facet is read from the same class. */
  ghost predicate Competes(rows: seq<Row>, vantages: Vantages, i: nat, c: VantageClass)
    requires i < |rows|
  {
    exists j :: 0 <= j < |rows| && j != i && ReadsFrom(rows[j], vantages, c)
      && rows[j].kind == rows[i].kind && rows[j].key == rows[i].key && rows[j].facet == rows[i].facet
  }

  /** The row has no discriminator and was read from a vantage of the class. */
  ghost predicate ReadsFrom(row: Row, vantages: Vantages, c: VantageClass) {
    && row.discriminator == ""
    && row.vantage.Some? && row.vantage.value in vantages && vantages[row.vantage.value].class_ == Some(c)
  }

  lemma {:induction false} TieHasOther(rows: seq<Row>, vantages: Vantages, k: ClassKey, i: nat) returns (j: nat)
    requires i < |rows| && RowClassKey(rows[i], vantages) == Some(k) && TieCount(rows, vantages, k) >= 2
    ensures j < |rows| && j != i && RowClassKey(rows[j], vantages) == Some(k)
  {
    var n := |rows| - 1;
    if i == n {
      j := TieHasOne(rows[..n], vantages, k);
    } else if RowClassKey(rows[n], vantages) == Some(k) {
      j := n;
    } else {
      j := TieHasOther(rows[..n], vantages, k, i);
    }
  }

  lemma {:induction false} TieHasOne(rows: seq<Row>, vantages: Vantages, k: ClassKey) returns (j: nat)
    requires TieCount(rows, vantages, k) >= 1
    ensures j < |rows| && RowClassKey(rows[j], vantages) == Some(k)
  {
    var n := |rows| - 1;
    if RowClassKey(rows[n], vantages) == Some(k) {
      j := n;
    } else {
      j := TieHasOne(rows[..n], vantages, k);
    }
  }

  lemma TiesExactly(rows: seq<Row>, vantages: Vantages, i: nat, c: VantageClass)
    requires i < |rows| && ReadsFrom(rows[i], vantages, c)
    ensures TieCount(rows, vantages, ClassKey(rows[i].kind, rows[i].key, rows[i].facet, c)) >= 2
            <==> Competes(rows, vantages, i, c)
  {
    var k := ClassKey(rows[i].kind, rows[i].key, rows[i].facet, c);
    if TieCount(rows, vantages, k) >= 2 {
      var j := TieHasOther(rows, vantages, k, i);
      assert ReadsFrom(rows[j], vantages, c);
    }
    if Competes(rows, vantages, i, c) {
      var j :| 0 <= j < |rows| && j != i && ReadsFrom(rows[j], vantages, c)
        && rows[j].kind == rows[i].kind && rows[j].key == rows[i].key && rows[j].facet == rows[i].facet;
      if i < j {
        TieCountTwo(rows, vantages, k, i, j);
      } else {
        TieCountTwo(rows, vantages, k, j, i);
      }
    }
  }

  /** A row is labelled by its facet and its discriminator; without one by its facet alone, or with the
      class it was read from, and by its vantage's name besides exactly when another row competes. */
  lemma LabelReads(rows: seq<Row>, vantages: Vantages, ties: Ties, i: nat, c: VantageClass)
    requires AreTies(ties, rows, vantages) && i < |rows|
    ensures var row := rows[i];
            var caption := RowLabel(row, vantages, ties);
            && (row.discriminator != "" ==> caption == DisplayFacet(row.facet) + " · " + row.discriminator)
            && (row.discriminator == "" && (forall d :: !ReadsFrom(row, vantages, d)) ==> caption == DisplayFacet(row.facet))
            && (ReadsFrom(row, vantages, c) ==>
                  var name := vantages[row.vantage.value].name;
                  caption == DisplayFacet(row.facet) + " · "
                           + (ClassText(c) + if Competes(rows, vantages, i, c) && name != "" then " · " + name else ""))
  {
    var row := rows[i];
    if row.discriminator == "" && RowReading(row, vantages).Some? {
      assert ReadsFrom(row, vantages, RowReading(row, vantages).value.class_);
    }
    if ReadsFrom(row, vantages, c) {
      var k := ClassKey(row.kind, row.key, row.facet, c);
      LabelShape(row, vantages, ties);
      TiesExactly(rows, vantages, i, c);
      assert TiesAt(ties, k) == TieCount(rows, vantages, k);
    }
  }

  /** The facets and classes as the page writes them. */
  lemma CaptionTexts()
    ensures DisplayFacet(Resolution) == "resolution" && DisplayFacet(DnsRecord) == "dns-records"
    ensures DisplayFacet(Reachability) == "reachability" && DisplayFacet(TlsAcceptance) == "tls-acceptance"
    ensures DisplayFacet(Certificate) == "certificate-chain" && DisplayFacet(HttpIdentity) == "http-identity"
    ensures ClassText(Internet) == "internet" && ClassText(Internal) == "internal" && ClassText(Unverified) == "unverified"
  {
  }
}
