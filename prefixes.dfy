/** The gvl node's prefix configuration: a string of prefixes separated by
    `;` or `,`, each trimmed, empty ones dropped and duplicates removed in
    first-occurrence order (`Array.from(new Set(...))`). Text is handled as
    its bytes; trimming removes the ASCII white space. */
module Prefixes {
  import opened Bytes
  import opened Wrappers

  const SEMICOLON: byte := 0x3B
  const COMMA: byte := 0x2C

  predicate IsSeparator(c: byte)
  {
    c == SEMICOLON || c == COMMA
  }

  /** Tab, line feed, vertical tab, form feed, carriage return and space. */
  predicate IsSpace(c: byte)
  {
    c == 0x20 || 0x09 <= c <= 0x0D
  }

  predicate NoSeparator(s: Text)
  {
    forall k :: 0 <= k < |s| ==> !IsSeparator(s[k])
  }

  predicate AllSpace(s: Text)
  {
    forall k :: 0 <= k < |s| ==> IsSpace(s[k])
  }

  /** Neither the first nor the last byte is white space. */
  predicate Trimmed(s: Text)
  {
    |s| == 0 || (!IsSpace(s[0]) && !IsSpace(s[|s| - 1]))
  }

  // ---------------------------------------------------------------------
  // split(/[;,]/)

  /** The parts between separators; there is always one more part than
      there are separators. */
  function Split(s: Text): (parts: seq<Text>)
    ensures |parts| >= 1
  {
    if s == [] then [[]]
    else
      var rest := Split(s[1..]);
      if IsSeparator(s[0]) then [[]] + rest
      else [[s[0]] + rest[0]] + rest[1..]
  }

  /** `parts.join(sep)`. */
  function Join(parts: seq<Text>, sep: byte): Text
  {
    if parts == [] then []
    else if |parts| == 1 then parts[0]
    else parts[0] + [sep] + Join(parts[1..], sep)
  }

  /** No part contains a separator. */
  lemma {:induction false} SplitPartsClean(s: Text)
    ensures forall i :: 0 <= i < |Split(s)| ==> NoSeparator(Split(s)[i])
  {
    if s != [] {
      SplitPartsClean(s[1..]);
      var rest := Split(s[1..]);
      if !IsSeparator(s[0]) {
        var first := [s[0]] + rest[0];
        assert NoSeparator(first) by {
          forall k | 0 <= k < |first| ensures !IsSeparator(first[k]) {
            if k > 0 { assert first[k] == rest[0][k - 1]; }
          }
        }
        var parts := Split(s);
        assert parts == [first] + rest[1..];
        forall i | 0 <= i < |parts| ensures NoSeparator(parts[i]) {
          if i > 0 { assert parts[i] == rest[i]; }
        }
      }
    }
  }

  /** Text without separators in front of `s` joins the first part. */
  lemma {:induction false} SplitAfterWord(w: Text, s: Text)
    requires NoSeparator(w)
    ensures Split(w + s) == [w + Split(s)[0]] + Split(s)[1..]
    decreases |w|
  {
    if w != [] {
      var t := w[1..] + s;
      assert (w + s)[1..] == t;
      assert (w + s)[0] == w[0] && !IsSeparator(w[0]);
      SplitAfterWord(w[1..], s);
      var r := Split(t);
      assert r[0] == w[1..] + Split(s)[0] && r[1..] == Split(s)[1..];
      assert Split(w + s) == [[w[0]] + r[0]] + r[1..];
      assert [w[0]] + (w[1..] + Split(s)[0]) == w + Split(s)[0];
    } else {
      assert w + s == s;
      assert w + Split(s)[0] == Split(s)[0];
      assert [Split(s)[0]] + Split(s)[1..] == Split(s);
    }
  }

  /** Splitting parts joined with a separator gives the parts back, as long
      as no part contains a separator. */
  lemma {:induction false} SplitJoin(parts: seq<Text>, sep: byte)
    requires |parts| >= 1 && IsSeparator(sep)
    requires forall i :: 0 <= i < |parts| ==> NoSeparator(parts[i])
    ensures Split(Join(parts, sep)) == parts
  {
    if |parts| == 1 {
      SplitAfterWord(parts[0], []);
      assert parts[0] + [] == parts[0];
    } else {
      var tail := Join(parts[1..], sep);
      SplitJoin(parts[1..], sep);
      var s := [sep] + tail;
      assert Split(s) == [[]] + parts[1..] by {
        assert s[1..] == tail;
      }
      assert Join(parts, sep) == parts[0] + s;
      SplitAfterWord(parts[0], s);
      assert parts[0] + [] == parts[0];
      assert [parts[0]] + parts[1..] == parts;
    }
  }

  // ---------------------------------------------------------------------
  // trim()

  function TrimStart(s: Text): Text
  {
    if |s| > 0 && IsSpace(s[0]) then TrimStart(s[1..]) else s
  }

  function TrimEnd(s: Text): Text
  {
    if |s| > 0 && IsSpace(s[|s| - 1]) then TrimEnd(s[..|s| - 1]) else s
  }

  function Trim(s: Text): Text
  {
    TrimEnd(TrimStart(s))
  }

  lemma {:induction false} TrimStartOf(w: Text, t: Text)
    requires AllSpace(w) && (t == [] || !IsSpace(t[0]))
    ensures TrimStart(w + t) == t
    decreases |w|
  {
    if w == [] {
      assert w + t == t;
    } else {
      assert (w + t)[1..] == w[1..] + t;
      TrimStartOf(w[1..], t);
    }
  }

  lemma {:induction false} TrimEndOf(t: Text, w: Text)
    requires AllSpace(w) && (t == [] || !IsSpace(t[|t| - 1]))
    ensures TrimEnd(t + w) == t
    decreases |w|
  {
    if w == [] {
      assert t + w == t;
    } else {
      var u := t + w;
      assert u[..|u| - 1] == t + w[..|w| - 1];
      TrimEndOf(t, w[..|w| - 1]);
    }
  }

  lemma {:induction false} TrimStartClean(s: Text)
    ensures |TrimStart(s)| <= |s| && (TrimStart(s) == [] || !IsSpace(TrimStart(s)[0]))
    ensures TrimStart(s) == s[|s| - |TrimStart(s)|..]
  {
    if |s| > 0 && IsSpace(s[0]) {
      TrimStartClean(s[1..]);
    }
  }

  lemma {:induction false} TrimEndClean(s: Text)
    ensures |TrimEnd(s)| <= |s| && (TrimEnd(s) == [] || !IsSpace(TrimEnd(s)[|TrimEnd(s)| - 1]))
    ensures TrimEnd(s) == s[..|TrimEnd(s)|]
  {
    if |s| > 0 && IsSpace(s[|s| - 1]) {
      TrimEndClean(s[..|s| - 1]);
    }
  }

  /** Trimming leaves text that neither starts nor ends with white space. */
  lemma TrimIsTrimmed(s: Text)
    ensures Trimmed(Trim(s))
  {
    var a := TrimStart(s);
    TrimStartClean(s);
    TrimEndClean(a);
  }

  /** Trimming adds no separator. */
  lemma TrimKeepsClean(s: Text)
    requires NoSeparator(s)
    ensures NoSeparator(Trim(s))
  {
    var a := TrimStart(s);
    TrimStartClean(s);
    TrimEndClean(a);
    var t := Trim(s);
    forall k | 0 <= k < |t| ensures !IsSeparator(t[k]) {
      assert t[k] == a[k] == s[|s| - |a| + k];
    }
  }

  /** Trimming text padded with white space on both sides gives the text
      back, exactly when the text itself has no white space at its ends. */
  lemma TrimPadded(w1: Text, t: Text, w2: Text)
    requires AllSpace(w1) && AllSpace(w2) && Trimmed(t)
    ensures Trim(w1 + t + w2) == t
  {
    if t == [] {
      assert w1 + t + w2 == w1 + w2;
      TrimStartOf(w1 + w2, []);
      assert w1 + w2 + [] == w1 + w2;
      TrimEndOf([], []);
    } else {
      assert w1 + t + w2 == w1 + (t + w2);
      TrimStartOf(w1, t + w2);
      TrimEndOf(t, w2);
    }
  }

  // ---------------------------------------------------------------------
  // filter(p => p) and new Set(...)

  function NonEmptyParts(ps: seq<Text>): (r: seq<Text>)
  {
    if ps == [] then []
    else (if ps[0] == [] then [] else [ps[0]]) + NonEmptyParts(ps[1..])
  }

  lemma {:induction false} NonEmptyPartsMembers(ps: seq<Text>)
    ensures forall t :: t in NonEmptyParts(ps) <==> t in ps && t != []
  {
    if ps != [] {
      NonEmptyPartsMembers(ps[1..]);
      assert ps == [ps[0]] + ps[1..];
    }
  }

  /** The distinct elements in order of first occurrence, as iterating a
      `Set` built from the sequence yields them. */
  function Dedupe(xs: seq<Text>): (r: seq<Text>)
  {
    if xs == [] then []
    else
      var d := Dedupe(xs[..|xs| - 1]);
      if xs[|xs| - 1] in d then d else d + [xs[|xs| - 1]]
  }

  predicate Distinct(xs: seq<Text>)
  {
    forall i, j :: 0 <= i < j < |xs| ==> xs[i] != xs[j]
  }

  /** Deduplication keeps every element and adds none. */
  lemma {:induction false} DedupeMembers(xs: seq<Text>)
    ensures forall t :: t in Dedupe(xs) <==> t in xs
  {
    if xs != [] {
      var init, last := xs[..|xs| - 1], xs[|xs| - 1];
      DedupeMembers(init);
      assert xs == init + [last];
    }
  }

  /** Deduplication repeats no element. */
  lemma {:induction false} DedupeDistinct(xs: seq<Text>)
    ensures Distinct(Dedupe(xs))
  {
    if xs != [] {
      var init, last := xs[..|xs| - 1], xs[|xs| - 1];
      DedupeDistinct(init);
      var d := Dedupe(init);
      if last !in d {
        var r := d + [last];
        forall i, j | 0 <= i < j < |r| ensures r[i] != r[j] {
          if j < |d| {
            assert r[i] == d[i] && r[j] == d[j];
          } else {
            assert r[i] == d[i] && r[j] == last;
          }
        }
      }
    }
  }

  /** A sequence without repeats is left as it is. */
  lemma {:induction false} DedupeKeepsDistinct(xs: seq<Text>)
    requires Distinct(xs)
    ensures Dedupe(xs) == xs
  {
    if xs != [] {
      var init, last := xs[..|xs| - 1], xs[|xs| - 1];
      assert Distinct(init) by {
        forall i, j | 0 <= i < j < |init| ensures init[i] != init[j] {
          assert init[i] == xs[i] && init[j] == xs[j];
        }
      }
      DedupeKeepsDistinct(init);
      assert last !in init by {
        forall i | 0 <= i < |init| ensures init[i] != last {
          assert init[i] == xs[i];
        }
      }
      assert xs == init + [last];
    }
  }

  /** Deduplication keeps every element, repeats none, and leaves a
      sequence without repeats as it is. */
  lemma DedupeSpec(xs: seq<Text>)
    ensures forall t :: t in Dedupe(xs) <==> t in xs
    ensures Distinct(Dedupe(xs))
    ensures Distinct(xs) ==> Dedupe(xs) == xs
  {
    DedupeMembers(xs);
    DedupeDistinct(xs);
    if Distinct(xs) {
      DedupeKeepsDistinct(xs);
    }
  }

  // ---------------------------------------------------------------------
  // The whole configuration

  /** `config.gvlPrefixes || (Array.isArray(config.gvls) ? config.gvls.join(';') : '')`. */
  function PrefixSource(gvlPrefixes: Text, gvls: Option<seq<Text>>): Text
  {
    if gvlPrefixes != [] then gvlPrefixes
    else if gvls.Some? then Join(gvls.value, SEMICOLON)
    else []
  }

  function TrimAll(ps: seq<Text>): (r: seq<Text>)
    ensures |r| == |ps| && forall i :: 0 <= i < |ps| ==> r[i] == Trim(ps[i])
  {
    if ps == [] then [] else [Trim(ps[0])] + TrimAll(ps[1..])
  }

  /** The configured prefixes: exactly the non-empty trimmed parts between
      separators, each once; none contains a separator or starts or ends
      with white space. */
  function ParsePrefixes(src: Text): (r: seq<Text>)
    ensures forall t :: t in r <==> t != [] && TrimsTo(Split(src), t)
    ensures Distinct(r)
    ensures forall i :: 0 <= i < |r| ==> r[i] != [] && Trimmed(r[i]) && NoSeparator(r[i])
  {
    var parts := Split(src);
    SplitPartsClean(src);
    KeptMembers(parts);
    KeptClean(parts);
    DedupeSpec(NonEmptyParts(TrimAll(parts)));
    Dedupe(NonEmptyParts(TrimAll(parts)))
  }

  /** Some part trims to `t`. */
  predicate TrimsTo(parts: seq<Text>, t: Text)
  {
    exists i :: 0 <= i < |parts| && Trim(parts[i]) == t
  }

  lemma KeptMembers(parts: seq<Text>)
    ensures forall t :: t in Dedupe(NonEmptyParts(TrimAll(parts))) <==> t != [] && TrimsTo(parts, t)
  {
    var trimmed := TrimAll(parts);
    var r := Dedupe(NonEmptyParts(trimmed));
    DedupeSpec(NonEmptyParts(trimmed));
    NonEmptyPartsMembers(trimmed);
    forall t ensures t in r <==> t != [] && TrimsTo(parts, t)
    {
      if t in r {
        var i :| 0 <= i < |trimmed| && trimmed[i] == t;
        assert Trim(parts[i]) == t;
      }
      if t != [] && TrimsTo(parts, t) {
        var i :| 0 <= i < |parts| && Trim(parts[i]) == t;
        assert trimmed[i] == t;
      }
    }
  }

  lemma KeptClean(parts: seq<Text>)
    requires forall i :: 0 <= i < |parts| ==> NoSeparator(parts[i])
    ensures forall i :: 0 <= i < |Dedupe(NonEmptyParts(TrimAll(parts)))| ==>
              var t := Dedupe(NonEmptyParts(TrimAll(parts)))[i]; t != [] && Trimmed(t) && NoSeparator(t)
  {
    var trimmed := TrimAll(parts);
    var r := Dedupe(NonEmptyParts(trimmed));
    DedupeSpec(NonEmptyParts(trimmed));
    NonEmptyPartsMembers(trimmed);
    forall i | 0 <= i < |r| ensures r[i] != [] && Trimmed(r[i]) && NoSeparator(r[i]) {
      assert r[i] in r;
      var j :| 0 <= j < |trimmed| && trimmed[j] == r[i];
      TrimIsTrimmed(parts[j]);
      TrimKeepsClean(parts[j]);
    }
  }

  /** A prefix list written with `;` between trimmed, distinct, non-empty
      prefixes that contain no separator is read back as it was written. */
  lemma PrefixesRoundTrip(ps: seq<Text>)
    requires |ps| >= 1 && Distinct(ps)
    requires forall i :: 0 <= i < |ps| ==> ps[i] != [] && Trimmed(ps[i]) && NoSeparator(ps[i])
    ensures ParsePrefixes(Join(ps, SEMICOLON)) == ps
  {
    SplitJoin(ps, SEMICOLON);
    TrimAllNoop(ps);
    NonEmptyAll(ps);
    DedupeSpec(ps);
  }

  lemma TrimAllNoop(ps: seq<Text>)
    requires forall i :: 0 <= i < |ps| ==> Trimmed(ps[i])
    ensures TrimAll(ps) == ps
  {
    var trimmed := TrimAll(ps);
    forall i | 0 <= i < |ps| ensures trimmed[i] == ps[i] {
      TrimOfTrimmed(ps[i]);
    }
  }

  /** Trimming a trimmed text changes nothing. */
  lemma TrimOfTrimmed(t: Text)
    requires Trimmed(t)
    ensures Trim(t) == t
  {
    assert TrimStart(t) == t;
  }

  lemma {:induction false} NonEmptyAll(ps: seq<Text>)
    requires forall i :: 0 <= i < |ps| ==> ps[i] != []
    ensures NonEmptyParts(ps) == ps
  {
    if ps != [] {
      NonEmptyAll(ps[1..]);
    }
  }
}
