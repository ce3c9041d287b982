/**
  Back-navigation destinations (cmd/web/backurl.go stripParams, stripDestParams, the tail of
  resolveBack; cmd/web/shell.go toastRedirect): dropping named parameters without re-encoding the
  rest, and the one receipt a redirect carries.

  `unescape` stands for url.QueryUnescape; `None` is its error.
*/
module QueryParams {
  import opened Text
  import opened Wrappers

  type Unescape = string -> Option<string>

  // ---------------------------------------------------------------- the pairs of a query

  /** A pair's name: the text before its first '=', unescaped when that succeeds. */
  function KeyOf(unescape: Unescape, pair: string): string {
    IndexOfIs(pair, '=');
    var i := IndexOf(pair, '=');
    var key := if i.Some? then pair[..i.value] else pair;
    var name := unescape(key);
    if name.Some? then name.value else key
  }

  predicate Stays(unescape: Unescape, names: seq<string>, pair: string) {
    pair != "" && KeyOf(unescape, pair) !in names
  }

  /** The pieces of a list that stay, in order. */
  function Keep(unescape: Unescape, parts: seq<string>, names: seq<string>): seq<string> {
    if parts == [] then []
    else
      var last := parts[|parts| - 1];
      Keep(unescape, parts[..|parts| - 1], names) + if Stays(unescape, names, last) then [last] else []
  }

  function StripParams(unescape: Unescape, raw: string, names: seq<string>): string {
    if raw == "" || names == [] then raw else Join(Keep(unescape, Split(raw, '&'), names), '&')
  }

  /** The non-empty pairs of a query, in order. */
  function Pairs(unescape: Unescape, raw: string): seq<string> {
    Keep(unescape, Split(raw, '&'), [])
  }

  method Drop(names: seq<string>, key: string) returns (drop: bool)
    ensures drop <==> key in names
  {
    for i := 0 to |names|
      invariant forall k :: 0 <= k < i ==> names[k] != key
    {
      if names[i] == key {
        return true;
      }
    }
    return false;
  }

  method Strip(unescape: Unescape, raw: string, names: seq<string>) returns (r: string)
    ensures r == StripParams(unescape, raw, names)
  {
    if raw == "" || |names| == 0 {
      return raw;
    }
    var parts := Split(raw, '&');
    var kept: seq<string> := [];
    for i := 0 to |parts|
      invariant kept == Keep(unescape, parts[..i], names)
    {
      assert parts[..i + 1][..i] == parts[..i];
      if parts[i] == "" {
        continue;
      }
      var drop := Drop(names, KeyOf(unescape, parts[i]));
      if drop {
        continue;
      }
      kept := kept + [parts[i]];
    }
    assert parts[..|parts|] == parts;
    r := Join(kept, '&');
  }

  // ---------------------------------------------------------------- what stripping does

  lemma {:induction false} KeepIsFiltered(unescape: Unescape, parts: seq<string>, names: seq<string>)
    ensures forall i :: 0 <= i < |Keep(unescape, parts, names)| ==>
              Keep(unescape, parts, names)[i] in parts && Stays(unescape, names, Keep(unescape, parts, names)[i])
  {
    if parts != [] {
      KeepIsFiltered(unescape, parts[..|parts| - 1], names);
    }
  }

  lemma {:induction false} KeepTwice(unescape: Unescape, parts: seq<string>, a: seq<string>, b: seq<string>)
    ensures Keep(unescape, Keep(unescape, parts, a), b) == Keep(unescape, parts, a + b)
  {
    if parts != [] {
      var prev, last := parts[..|parts| - 1], parts[|parts| - 1];
      KeepTwice(unescape, prev, a, b);
      var kept := Keep(unescape, prev, a);
      if Stays(unescape, a, last) {
        assert (kept + [last])[..|kept|] == kept;
      } else {
        assert kept + [] == kept;
      }
    }
  }

  /** A stripped query that is not empty splits into exactly the pieces that were kept. */
  lemma SplitStripped(unescape: Unescape, raw: string, names: seq<string>)
    requires raw != "" && names != []
    ensures var kept := Keep(unescape, Split(raw, '&'), names);
            && (StripParams(unescape, raw, names) == "" <==> kept == [])
            && (kept != [] ==> Split(StripParams(unescape, raw, names), '&') == kept)
  {
    var kept := Keep(unescape, Split(raw, '&'), names);
    KeepIsFiltered(unescape, Split(raw, '&'), names);
    SplitHasNoSeparator(raw, '&');
    if kept != [] {
      SplitJoin(kept, '&');
      JoinIsNotEmpty(kept, '&');
    }
  }

  /** The pairs left are the pairs there were, without those of the named keys, in the same order. */
  lemma StrippedPairs(unescape: Unescape, raw: string, names: seq<string>)
    ensures Pairs(unescape, StripParams(unescape, raw, names)) == Keep(unescape, Split(raw, '&'), names)
  {
    if raw != "" && names != [] {
      SplitStripped(unescape, raw, names);
      var kept := Keep(unescape, Split(raw, '&'), names);
      KeepTwice(unescape, Split(raw, '&'), names, []);
      assert names + [] == names;
      if kept == [] {
        assert Split("", '&') == [""];
        assert [""][..0] == [];
      }
    } else if raw == "" {
      assert Split("", '&') == [""];
      assert [""][..0] == [];
    }
  }

  /** Stripping composes: dropping one set of names and then another drops their union. */
  lemma StripComposes(unescape: Unescape, raw: string, a: seq<string>, b: seq<string>)
    ensures StripParams(unescape, StripParams(unescape, raw, a), b) == StripParams(unescape, raw, a + b)
  {
    if raw != "" && a != [] && b != [] {
      SplitStripped(unescape, raw, a);
      KeepTwice(unescape, Split(raw, '&'), a, b);
      if Keep(unescape, Split(raw, '&'), a) == [] {
        assert Keep(unescape, Split(raw, '&'), a + b) == [];
      }
    } else {
      assert a == [] ==> a + b == b;
      assert b == [] ==> a + b == a;
    }
  }

  // ---------------------------------------------------------------- destinations

  const TOAST := "toast"

  function StripDestParams(unescape: Unescape, dest: string, names: seq<string>): string {
    IndexOfIs(dest, '?');
    var i := IndexOf(dest, '?');
    if i.None? || names == [] then dest
    else
      var q := StripParams(unescape, dest[i.value + 1..], names);
      if q == "" then dest[..i.value] else dest[..i.value + 1] + q
  }

  /** url.Parse's fragment: what follows the first '#'. */
  function FragmentOf(raw: string): string {
    IndexOfIs(raw, '#');
    if IndexOf(raw, '#').Some? then raw[IndexOf(raw, '#').value + 1..] else ""
  }

  /** The checks of resolveBack: `otherGates` are those that do not look at the query or the fragment (the
      path's form, its route, the absence of a scheme, a host or a backslash). */
  predicate PassesGates(raw: string, otherGates: bool) {
    raw != "" && otherGates && FragmentOf(raw) == ""
  }

  /** resolveBack after its field is read. */
  function ResolveBack(unescape: Unescape, raw: string, fallback: string, otherGates: bool): string {
    if PassesGates(raw, otherGates) then StripDestParams(unescape, raw, [TOAST]) else fallback
  }

  /** The request's own destination is taken exactly when it is not empty, the other checks pass, and it
      holds no '#' but perhaps one at its very end. */
  lemma BackIsTakenExactly(unescape: Unescape, raw: string, fallback: string, otherGates: bool)
    ensures PassesGates(raw, otherGates) <==>
            raw != "" && otherGates && ('#' !in raw || '#' !in raw[..|raw| - 1])
    ensures ResolveBack(unescape, raw, fallback, otherGates) ==
            if raw != "" && otherGates && ('#' !in raw || '#' !in raw[..|raw| - 1])
            then StripDestParams(unescape, raw, [TOAST]) else fallback
  {
    IndexOfIs(raw, '#');
    if '#' in raw {
      var i := IndexOf(raw, '#').value;
      if i < |raw| - 1 {
        assert raw[..|raw| - 1][i] == '#';
      } else {
        assert raw[..|raw| - 1] == raw[..i];
      }
    }
  }

  /** A destination whose query carries no toast pair, before or after a '#'. */
  predicate HasNoToast(unescape: Unescape, dest: string) {
    Named(unescape, Pairs(unescape, QueryText(dest)), TOAST) == []
  }

  function Receipt(payload: string): string {
    TOAST + "=" + payload
  }

  function ToastRedirect(dest: string, payload: string): string {
    dest + (if '?' in dest then "&" else "?") + Receipt(payload)
  }

  /** The query a browser sends for a destination: after the first '?' of what precedes any '#'. */
  function QueryOf(dest: string): string {
    IndexOfIs(dest, '#');
    var sent := if IndexOf(dest, '#').Some? then dest[..IndexOf(dest, '#').value] else dest;
    QueryText(sent)
  }

  /** What follows the first '?'. */
  function QueryText(dest: string): string {
    IndexOfIs(dest, '?');
    if IndexOf(dest, '?').Some? then dest[IndexOf(dest, '?').value + 1..] else ""
  }

  /** The pairs of a list that carry a name, in order. */
  function Named(unescape: Unescape, pairs: seq<string>, name: string): seq<string> {
    if pairs == [] then []
    else
      var last := pairs[|pairs| - 1];
      Named(unescape, pairs[..|pairs| - 1], name) + if KeyOf(unescape, last) == name then [last] else []
  }

  lemma {:induction false} NamedOfStripped(unescape: Unescape, parts: seq<string>, name: string)
    ensures Named(unescape, Keep(unescape, parts, [name]), name) == []
  {
    if parts != [] {
      var prev, last := parts[..|parts| - 1], parts[|parts| - 1];
      NamedOfStripped(unescape, prev, name);
      var kept := Keep(unescape, prev, [name]);
      if Stays(unescape, [name], last) {
        assert (kept + [last])[..|kept|] == kept;
      } else {
        assert kept + [] == kept;
      }
    }
  }

  /** Stripping a destination strips its query text and nothing else. */
  lemma StrippedQueryText(unescape: Unescape, dest: string, names: seq<string>)
    requires names != []
    ensures QueryText(StripDestParams(unescape, dest, names)) == StripParams(unescape, QueryText(dest), names)
  {
    IndexOfIs(dest, '?');
    var i := IndexOf(dest, '?');
    if i.Some? {
      var path, q := dest[..i.value], StripParams(unescape, dest[i.value + 1..], names);
      if q == "" {
        IndexOfAbsent(path, '?');
      } else {
        assert dest[..i.value + 1] + q == path + ['?'] + q;
        IndexOfFirst(path, '?', q);
        assert (path + ['?'] + q)[i.value + 1..] == q;
      }
    }
  }

  /** What resolveBack takes from the request carries no toast pair of its own; what it falls back to is
      the handler's own destination. */
  lemma ResolvedHasNoToast(unescape: Unescape, raw: string, fallback: string, otherGates: bool)
    ensures var dest := ResolveBack(unescape, raw, fallback, otherGates);
            HasNoToast(unescape, dest) || (dest == fallback && !PassesGates(raw, otherGates))
  {
    StrippedQueryText(unescape, raw, [TOAST]);
    StrippedPairs(unescape, QueryText(raw), [TOAST]);
    NamedOfStripped(unescape, Split(QueryText(raw), '&'), TOAST);
  }

  lemma ToastPairKey(unescape: Unescape, payload: string)
    requires unescape(TOAST) == Some(TOAST)
    ensures KeyOf(unescape, Receipt(payload)) == TOAST
  {
    IndexOfFirst(TOAST, '=', payload);
    assert Receipt(payload)[..5] == TOAST;
  }

  lemma QueryTextExtended(dest: string, more: string)
    requires '?' in dest
    ensures QueryText(dest + more) == QueryText(dest) + more
  {
    IndexOfPrefix(dest, '?', more);
    IndexOfIs(dest, '?');
    var i := IndexOf(dest, '?').value;
    assert (dest + more)[i + 1..] == dest[i + 1..] + more;
  }

  lemma QueryTextStarted(dest: string, q: string)
    requires '?' !in dest
    ensures QueryText(dest + ['?'] + q) == q
  {
    IndexOfFirst(dest, '?', q);
    assert (dest + ['?'] + q)[|dest| + 1..] == q;
  }

  lemma QueryOfUnfragmented(u: string)
    requires '#' !in u
    ensures QueryOf(u) == QueryText(u)
  {
    IndexOfAbsent(u, '#');
  }

  /** The query of a redirect whose destination holds no '#': the destination's, then the receipt. */
  lemma RedirectQuery(dest: string, payload: string)
    requires '#' !in dest && '#' !in payload
    ensures '?' in dest ==> QueryOf(ToastRedirect(dest, payload)) == QueryText(dest) + "&" + Receipt(payload)
    ensures '?' !in dest ==> QueryOf(ToastRedirect(dest, payload)) == Receipt(payload)
  {
    QueryOfUnfragmented(ToastRedirect(dest, payload));
    if '?' in dest {
      QueryTextExtended(dest, "&");
      QueryTextExtended(dest + "&", Receipt(payload));
    } else {
      QueryTextStarted(dest, Receipt(payload));
    }
  }

  lemma NamedSnoc(unescape: Unescape, pairs: seq<string>, last: string, name: string)
    ensures Named(unescape, pairs + [last], name)
            == Named(unescape, pairs, name) + if KeyOf(unescape, last) == name then [last] else []
  {
    assert (pairs + [last])[..|pairs|] == pairs;
  }

  lemma KeepSnoc(unescape: Unescape, parts: seq<string>, last: string)
    requires Stays(unescape, [], last)
    ensures Keep(unescape, parts + [last], []) == Keep(unescape, parts, []) + [last]
  {
    assert (parts + [last])[..|parts|] == parts;
  }

  /** A redirect to a resolved destination carries exactly one toast pair, the receipt's, when the
      destination holds no '#'. */
  lemma OneToast(unescape: Unescape, dest: string, payload: string)
    requires unescape(TOAST) == Some(TOAST)
    requires '&' !in payload && '#' !in payload
    requires Named(unescape, Pairs(unescape, QueryText(dest)), TOAST) == []
    requires '#' !in dest
    ensures Named(unescape, Pairs(unescape, QueryOf(ToastRedirect(dest, payload))), TOAST) == [Receipt(payload)]
  {
    ToastPairKey(unescape, payload);
    ReceiptIsPlain(payload);
    RedirectQuery(dest, payload);
    if '?' in dest {
      LastPair(unescape, QueryText(dest), Receipt(payload), TOAST);
    } else {
      OnlyPair(unescape, Receipt(payload), TOAST);
    }
  }

  lemma ReceiptIsPlain(payload: string)
    requires '&' !in payload
    ensures '&' !in Receipt(payload) && Receipt(payload) != ""
  {
  }

  /** One more pair at the end of a query that has none of its name. */
  lemma LastPair(unescape: Unescape, q: string, pair: string, name: string)
    requires '&' !in pair && pair != "" && KeyOf(unescape, pair) == name
    requires Named(unescape, Pairs(unescape, q), name) == []
    ensures Named(unescape, Pairs(unescape, q + "&" + pair), name) == [pair]
  {
    SplitAppend(q, pair, '&');
    KeepSnoc(unescape, Split(q, '&'), pair);
    NamedSnoc(unescape, Pairs(unescape, q), pair, name);
  }

  lemma OnlyPair(unescape: Unescape, pair: string, name: string)
    requires '&' !in pair && pair != "" && KeyOf(unescape, pair) == name
    ensures Named(unescape, Pairs(unescape, pair), name) == [pair]
  {
    SplitPlain(pair, '&');
    KeepSnoc(unescape, [], pair);
    NamedSnoc(unescape, [], pair, name);
    assert [] + [pair] == [pair];
  }

  /** And when it does hold one, the receipt falls into the fragment: the browser sends the query it
      would have sent without any receipt. */
  lemma HashHidesReceipt(dest: string, payload: string)
    requires '#' in dest
    ensures QueryOf(ToastRedirect(dest, payload)) == QueryOf(dest)
  {
    var tail := (if '?' in dest then "&" else "?") + Receipt(payload);
    assert ToastRedirect(dest, payload) == dest + tail;
    IndexOfPrefix(dest, '#', tail);
    IndexOfIs(dest, '#');
    var i := IndexOf(dest, '#').value;
    assert (dest + tail)[..i] == dest[..i];
  }

  /** Cutting a query short only shortens pieces: each piece of the front starts a piece of the whole. */
  lemma {:induction false} CutPieces(q: string, n: nat, piece: string) returns (whole: string)
    requires n <= |q| && piece in Split(q[..n], '&')
    ensures whole in Split(q, '&') && piece <= whole
    decreases |q| - n
  {
    if n == |q| {
      assert q[..n] == q;
      whole := piece;
    } else {
      var before, after := Split(q[..n], '&'), Split(q[..n + 1], '&');
      assert q[..n + 1][..n] == q[..n];
      var k :| 0 <= k < |before| && before[k] == piece;
      assert piece <= after[k];
      whole := CutPieces(q, n + 1, after[k]);
    }
  }

  lemma {:induction false} KeepHas(unescape: Unescape, parts: seq<string>, pair: string)
    requires pair in parts && pair != ""
    ensures pair in Keep(unescape, parts, [])
  {
    var n := |parts| - 1;
    if pair != parts[n] {
      KeepHas(unescape, parts[..n], pair);
    }
  }

  lemma {:induction false} NamedHas(unescape: Unescape, pairs: seq<string>, name: string, pair: string)
    ensures pair in Named(unescape, pairs, name) <==> pair in pairs && KeyOf(unescape, pair) == name
  {
    if pairs != [] {
      NamedHas(unescape, pairs[..|pairs| - 1], name, pair);
    }
  }

  lemma ToastStarts(unescape: Unescape, payload: string, pair: string)
    requires unescape(TOAST) == Some(TOAST) && Receipt(payload) <= pair
    ensures pair != "" && KeyOf(unescape, pair) == TOAST
  {
    var n := |Receipt(payload)|;
    assert pair == Receipt(payload) + pair[n..] == Receipt(payload + pair[n..]);
    ToastPairKey(unescape, payload + pair[n..]);
  }

  lemma QueryTextOfFront(dest: string, i: nat)
    requires i <= |dest|
    ensures QueryText(dest[..i]) <= QueryText(dest)
  {
    if '?' in dest[..i] {
      QueryTextExtended(dest[..i], dest[i..]);
      assert dest[..i] + dest[i..] == dest;
    } else {
      IndexOfAbsent(dest[..i], '?');
    }
  }

  lemma ReceiptHasWhole(unescape: Unescape, sent: string, whole: string, payload: string)
    requires unescape(TOAST) == Some(TOAST)
    requires sent <= whole && Receipt(payload) in Split(sent, '&')
    ensures Named(unescape, Pairs(unescape, whole), TOAST) != []
  {
    assert whole[..|sent|] == sent;
    var pair := CutPieces(whole, |sent|, Receipt(payload));
    ToastStarts(unescape, payload, pair);
    KeepHas(unescape, Split(whole, '&'), pair);
    NamedHas(unescape, Pairs(unescape, whole), TOAST, pair);
  }

  /** A destination with no toast pair of its own sends no receipt for what precedes its '#'. */
  lemma NoReceiptBeforeHash(unescape: Unescape, dest: string, payload: string)
    requires unescape(TOAST) == Some(TOAST)
    requires Named(unescape, Pairs(unescape, QueryText(dest)), TOAST) == []
    requires '#' in dest
    ensures Receipt(payload) !in Named(unescape, Pairs(unescape, QueryOf(dest)), TOAST)
  {
    IndexOfIs(dest, '#');
    var sent := QueryOf(dest);
    if Receipt(payload) in Named(unescape, Pairs(unescape, sent), TOAST) {
      NamedHas(unescape, Pairs(unescape, sent), TOAST, Receipt(payload));
      KeepIsFiltered(unescape, Split(sent, '&'), []);
      QueryTextOfFront(dest, IndexOf(dest, '#').value);
      ReceiptHasWhole(unescape, sent, QueryText(dest), payload);
    }
  }

  /** So a redirect to a destination without a toast pair carries its receipt, and no other, exactly when
      the destination holds no '#'. */
  lemma ReceiptArrivesAt(unescape: Unescape, dest: string, payload: string)
    requires unescape(TOAST) == Some(TOAST)
    requires '&' !in payload && '#' !in payload
    requires HasNoToast(unescape, dest)
    ensures Named(unescape, Pairs(unescape, QueryOf(ToastRedirect(dest, payload))), TOAST) == [Receipt(payload)] <==> '#' !in dest
  {
    if '#' !in dest {
      OneToast(unescape, dest, payload);
    } else {
      HashHidesReceipt(dest, payload);
      NoReceiptBeforeHash(unescape, dest, payload);
      assert Receipt(payload) in [Receipt(payload)];
    }
  }

  /** That is so of every destination resolveBack returns, whatever the request holds, when the handler's own
      fallback has no toast pair. */
  lemma ReceiptArrivesExactly(unescape: Unescape, raw: string, fallback: string, otherGates: bool, payload: string)
    requires unescape(TOAST) == Some(TOAST)
    requires '&' !in payload && '#' !in payload
    requires HasNoToast(unescape, fallback)
    ensures var dest := ResolveBack(unescape, raw, fallback, otherGates);
            Named(unescape, Pairs(unescape, QueryOf(ToastRedirect(dest, payload))), TOAST) == [Receipt(payload)] <==> '#' !in dest
  {
    ResolvedHasNoToast(unescape, raw, fallback, otherGates);
    ReceiptArrivesAt(unescape, ResolveBack(unescape, raw, fallback, otherGates), payload);
  }

  /** The fragment gate lets such a destination through: an empty fragment is no fragment to it. */
  lemma EmptyFragmentPasses(unescape: Unescape, fallback: string)
    ensures ResolveBack(unescape, "/x#", fallback, true) == "/x#"
    ensures QueryOf(ToastRedirect("/x#", "p")) == ""
  {
    IndexOfFirst("/x", '#', "");
    assert "/x" + ['#'] + "" == "/x#";
    assert "/x#"[3..] == "";
    IndexOfAbsent("/x#", '?');
    HashHidesReceipt("/x#", "p");
    assert "/x#"[..2] == "/x";
    IndexOfAbsent("/x", '?');
  }
}
