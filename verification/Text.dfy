/** Searching, splitting and joining text, as Go's strings package does. */
module Text {
  import opened Wrappers

  /** strings.Split(s, sep): always at least one piece. */
  function Split(s: string, sep: char): (r: seq<string>)
    ensures |r| > 0
  {
    if s == [] then [""]
    else
      var before, c := Split(s[..|s| - 1], sep), s[|s| - 1];
      if c == sep then before + [""] else before[..|before| - 1] + [before[|before| - 1] + [c]]
  }

  function Join(parts: seq<string>, sep: char): string {
    if |parts| == 0 then ""
    else if |parts| == 1 then parts[0]
    else Join(parts[..|parts| - 1], sep) + [sep] + parts[|parts| - 1]
  }

  function IndexOf(s: string, c: char): Option<nat> {
    if s == [] then None
    else
      var before := IndexOf(s[..|s| - 1], c);
      if before.Some? then before else if s[|s| - 1] == c then Some(|s| - 1) else None
  }

  lemma {:induction false} IndexOfIs(s: string, c: char)
    ensures match IndexOf(s, c)
            case None => c !in s
            case Some(i) => i < |s| && s[i] == c && c !in s[..i]
  {
    if s != [] {
      var prev := s[..|s| - 1];
      IndexOfIs(prev, c);
      assert s == prev + [s[|s| - 1]];
      if IndexOf(prev, c).Some? {
        assert prev[..IndexOf(prev, c).value] == s[..IndexOf(prev, c).value];
      }
    }
  }

  lemma {:induction false} SplitAppend(s: string, t: string, sep: char)
    requires sep !in t
    ensures Split(s + [sep] + t, sep) == Split(s, sep) + [t]
  {
    var whole := s + [sep] + t;
    if t == [] {
      assert whole[..|whole| - 1] == s;
      assert whole[|whole| - 1] == sep;
    } else {
      var n := |t| - 1;
      SplitAppend(s, t[..n], sep);
      assert whole[..|whole| - 1] == s + [sep] + t[..n];
      assert whole[|whole| - 1] == t[n];
      assert t == t[..n] + [t[n]];
    }
  }

  lemma {:induction false} SplitPlain(t: string, sep: char)
    requires sep !in t
    ensures Split(t, sep) == [t]
  {
    if t != [] {
      SplitPlain(t[..|t| - 1], sep);
      assert t == t[..|t| - 1] + [t[|t| - 1]];
      assert t[|t| - 1] in t;
    }
  }

  /** Joining pieces that hold no separator and splitting again gives the pieces back. */
  lemma {:induction false} SplitJoin(parts: seq<string>, sep: char)
    requires |parts| > 0 && forall i :: 0 <= i < |parts| ==> sep !in parts[i]
    ensures Split(Join(parts, sep), sep) == parts
  {
    if |parts| == 1 {
      SplitPlain(parts[0], sep);
    } else {
      var n := |parts| - 1;
      SplitJoin(parts[..n], sep);
      SplitAppend(Join(parts[..n], sep), parts[n], sep);
      assert parts == parts[..n] + [parts[n]];
    }
  }

  lemma {:induction false} SplitHasNoSeparator(s: string, sep: char)
    ensures forall i :: 0 <= i < |Split(s, sep)| ==> sep !in Split(s, sep)[i]
  {
    if s != [] {
      SplitHasNoSeparator(s[..|s| - 1], sep);
    }
  }

  lemma JoinIsNotEmpty(parts: seq<string>, sep: char)
    requires |parts| > 0 && parts[0] != ""
    ensures Join(parts, sep) != ""
  {
    if |parts| > 1 {
      assert sep in Join(parts, sep);
    }
  }

  lemma {:induction false} IndexOfFirst(s: string, c: char, t: string)
    requires c !in s
    ensures IndexOf(s + [c] + t, c) == Some(|s|)
  {
    var whole := s + [c] + t;
    if t == [] {
      IndexOfIs(s, c);
      assert whole[..|whole| - 1] == s;
    } else {
      IndexOfFirst(s, c, t[..|t| - 1]);
      assert whole[..|whole| - 1] == s + [c] + t[..|t| - 1];
    }
  }

  lemma IndexOfPrefix(s: string, c: char, t: string)
    requires c in s
    ensures IndexOf(s + t, c) == IndexOf(s, c)
  {
    IndexOfIs(s, c);
    var i := IndexOf(s, c).value;
    assert s + t == s[..i] + [c] + (s[i + 1..] + t);
    IndexOfFirst(s[..i], c, s[i + 1..] + t);
  }

  lemma IndexOfAbsent(s: string, c: char)
    requires c !in s
    ensures IndexOf(s, c) == None
  {
    IndexOfIs(s, c);
  }

  function LastIndex(s: string, c: char): Option<nat> {
    if s == [] then None
    else if s[|s| - 1] == c then Some(|s| - 1)
    else LastIndex(s[..|s| - 1], c)
  }

  lemma {:induction false} LastIndexAfter(s: string, c: char, t: string)
    requires c !in t
    ensures LastIndex(s + [c] + t, c) == Some(|s|)
  {
    var whole := s + [c] + t;
    if t == "" {
      assert whole == s + [c];
    } else {
      LastIndexAfter(s, c, t[..|t| - 1]);
      assert whole[..|whole| - 1] == s + [c] + t[..|t| - 1];
      assert whole[|whole| - 1] == t[|t| - 1] && t[|t| - 1] in t;
    }
  }

  lemma {:induction false} LastIndexAbsent(s: string, c: char)
    requires c !in s
    ensures LastIndex(s, c) == None
  {
    if s != "" {
      assert s[|s| - 1] in s;
      LastIndexAbsent(s[..|s| - 1], c);
    }
  }

  lemma {:induction false} LastIndexBound(s: string, c: char)
    ensures LastIndex(s, c).Some? ==> LastIndex(s, c).value < |s|
  {
    if s != [] && s[|s| - 1] != c {
      LastIndexBound(s[..|s| - 1], c);
    }
  }
}
