/** The string operations the account workflow and the header gate rely on,
    written out with JavaScript's semantics: `toLowerCase`, `trim`,
    `replace(/\s+/, "")` (a NON-global regex, so only the first whitespace
    run goes) and `split(" ")`. */
module Text {

  /** JavaScript's WhiteSpace and LineTerminator code points: exactly what
      `String.prototype.trim` strips and what the regex class `\s` matches. */
  predicate IsSpace(c: char) {
    || c == '\t' || c == '\n' || c == '\U{B}' || c == '\U{C}' || c == '\r' || c == ' '
    || c == '\U{A0}' || c == '\U{1680}' || ('\U{2000}' <= c <= '\U{200A}')
    || c == '\U{2028}' || c == '\U{2029}' || c == '\U{202F}' || c == '\U{205F}'
    || c == '\U{3000}' || c == '\U{FEFF}'
  }

  predicate NoSpace(s: string) {
    forall i :: 0 <= i < |s| ==> !IsSpace(s[i])
  }

  predicate AllSpace(s: string) {
    forall i :: 0 <= i < |s| ==> IsSpace(s[i])
  }

  predicate IsUpper(c: char) {
    'A' <= c <= 'Z'
  }

  predicate NoUpper(s: string) {
    forall i :: 0 <= i < |s| ==> !IsUpper(s[i])
  }

  function LowerChar(c: char): (d: char)
    ensures !IsUpper(d)
    ensures !IsUpper(c) ==> d == c
  {
    if IsUpper(c) then (c as int - 'A' as int + 'a' as int) as char else c
  }

  /** `toLowerCase`, restricted to the ASCII letters. */
  function Lower(s: string): (r: string)
    ensures |r| == |s| && NoUpper(r)
    ensures forall i :: 0 <= i < |s| ==> r[i] == LowerChar(s[i])
  {
    seq(|s|, i requires 0 <= i < |s| => LowerChar(s[i]))
  }

  /** Lower-casing leaves a string alone exactly when it has no capital. */
  lemma LowerFixes(s: string)
    ensures Lower(s) == s <==> NoUpper(s)
  {
    if NoUpper(s) {
      assert forall i :: 0 <= i < |s| ==> Lower(s)[i] == s[i];
    }
  }

  /** Strips the leading whitespace run; what is left is a suffix of `s`. */
  function TrimStart(s: string): (r: string)
    ensures |r| <= |s| && r == s[|s| - |r|..]
    ensures AllSpace(s[..|s| - |r|])
    ensures r == [] || !IsSpace(r[0])
  {
    if |s| > 0 && IsSpace(s[0]) then TrimStart(s[1..]) else s
  }

  /** Strips the trailing whitespace run; what is left is a prefix of `s`. */
  function TrimEnd(s: string): (r: string)
    ensures |r| <= |s| && r == s[..|r|]
    ensures AllSpace(s[|r|..])
    ensures r == [] || !IsSpace(r[|r| - 1])
  {
    if |s| > 0 && IsSpace(s[|s| - 1]) then
      var r := TrimEnd(s[..|s| - 1]);
      assert s[|r|..] == s[..|s| - 1][|r|..] + [s[|s| - 1]];
      r
    else s
  }

  /** Length of the leading whitespace run of `s`. */
  function LeadingSpaces(s: string): (n: nat)
    ensures n <= |s| && AllSpace(s[..n])
    ensures n == |s| || !IsSpace(s[n])
  {
    |s| - |TrimStart(s)|
  }

  /** `trim`: a string that neither starts nor ends with whitespace, and is
      empty only when `s` is all whitespace; `TrimIsPiece` places it in `s`. */
  function Trim(s: string): (r: string)
    ensures |r| <= |s|
    ensures r == [] || (!IsSpace(r[0]) && !IsSpace(r[|r| - 1]))
    ensures r == [] <==> AllSpace(s)
  {
    TrimPassesEmpty(s);
    TrimEnd(TrimStart(s))
  }

  /** What `trim` keeps is the piece of `s` right after its leading
      whitespace run, and only whitespace follows it. */
  lemma TrimIsPiece(s: string)
    ensures LeadingSpaces(s) + |Trim(s)| <= |s|
    ensures Trim(s) == s[LeadingSpaces(s)..LeadingSpaces(s) + |Trim(s)|]
    ensures AllSpace(s[LeadingSpaces(s) + |Trim(s)|..])
  {
    var a := LeadingSpaces(s);
    var t := TrimStart(s);
    var r := TrimEnd(t);
    assert Trim(s) == r;
    PrefixOfSuffix(s, a, t, r);
  }

  /** A prefix `r` of a suffix `t` of `s`, followed in `t` only by
      whitespace, is a piece of `s` followed only by whitespace. */
  lemma PrefixOfSuffix(s: string, a: nat, t: string, r: string)
    requires a <= |s| && t == s[a..]
    requires |r| <= |t| && r == t[..|r|] && AllSpace(t[|r|..])
    ensures a + |r| <= |s| && r == s[a..a + |r|]
    ensures AllSpace(s[a + |r|..])
  {
    assert s[a + |r|..] == t[|r|..];
  }

  /** The two passes of `Trim` leave nothing exactly when `s` is all
      whitespace. */
  lemma TrimPassesEmpty(s: string)
    ensures TrimEnd(TrimStart(s)) == [] <==> AllSpace(s)
  {
    var t := TrimStart(s);
    if t == [] {
      assert s[..|s| - |t|] == s;
    }
  }

  lemma {:induction false} TrimStartOfSpaces(w: string, q: string)
    requires AllSpace(w)
    requires q == [] || !IsSpace(q[0])
    ensures TrimStart(w + q) == q
    decreases |w|
  {
    if w == [] {
      assert w + q == q;
    } else {
      assert (w + q)[1..] == w[1..] + q;
      TrimStartOfSpaces(w[1..], q);
    }
  }

  lemma {:induction false} TrimEndOfSpaces(p: string, w: string)
    requires AllSpace(w)
    requires p == [] || !IsSpace(p[|p| - 1])
    ensures TrimEnd(p + w) == p
    decreases |w|
  {
    if w == [] {
      assert p + w == p;
    } else {
      assert (p + w)[..|p + w| - 1] == p + w[..|w| - 1];
      TrimEndOfSpaces(p, w[..|w| - 1]);
    }
  }

  /** `trim` removes exactly the whitespace padding around a string that does
      not itself begin or end with whitespace. */
  lemma TrimOfPadded(w1: string, s: string, w2: string)
    requires AllSpace(w1) && AllSpace(w2)
    requires s == [] || (!IsSpace(s[0]) && !IsSpace(s[|s| - 1]))
    ensures Trim(w1 + s + w2) == s
  {
    if s == [] {
      assert AllSpace(w1 + s + w2) by {
        assert w1 + s + w2 == w1 + w2;
      }
    } else {
      assert w1 + s + w2 == w1 + (s + w2);
      TrimStartOfSpaces(w1, s + w2);
      TrimEndOfSpaces(s, w2);
    }
  }

  /** `replace(/\s+/, "")`: the leftmost whitespace run, taken greedily, is
      removed; every later run survives. */
  function RemoveFirstSpaceRun(s: string): (r: string)
    ensures |r| <= |s|
    decreases |s|
  {
    if |s| == 0 then s
    else if IsSpace(s[0]) then TrimStart(s)
    else [s[0]] + RemoveFirstSpaceRun(s[1..])
  }

  /** A character that is not whitespace is copied and the search goes on. */
  lemma RemoveFirstSpaceRunStep(c: char, t: string)
    requires !IsSpace(c)
    ensures RemoveFirstSpaceRun([c] + t) == [c] + RemoveFirstSpaceRun(t)
  {
    assert ([c] + t)[1..] == t;
  }

  /** A space-free head passes through the replacement untouched. */
  lemma {:induction false} RemoveFirstSpaceRunSkipsHead(p: string, t: string)
    requires NoSpace(p)
    ensures RemoveFirstSpaceRun(p + t) == p + RemoveFirstSpaceRun(t)
    decreases |p|
  {
    if p == [] {
      assert p + t == t;
    } else {
      var c, tail := p[0], p[1..];
      assert p == [c] + tail;
      assert NoSpace(tail) by {
        forall k | 0 <= k < |tail| ensures !IsSpace(tail[k]) {
          assert tail[k] == p[k + 1];
        }
      }
      RemoveFirstSpaceRunSkipsHead(tail, t);
      assert p + t == [c] + (tail + t);
      RemoveFirstSpaceRunStep(c, tail + t);
    }
  }

  /** A string without whitespace is left as it is. */
  lemma RemoveFirstSpaceRunOfSpaceFree(s: string)
    requires NoSpace(s)
    ensures RemoveFirstSpaceRun(s) == s
  {
    RemoveFirstSpaceRunSkipsHead(s, []);
    assert s + [] == s;
  }

  /** Writing `s` as a space-free head `p`, a whitespace run `w` and a rest `q`
      that does not continue the run, the replacement yields `p + q`. */
  lemma RemoveFirstSpaceRunCuts(p: string, w: string, q: string)
    requires NoSpace(p)
    requires w != [] && AllSpace(w)
    requires q == [] || !IsSpace(q[0])
    ensures RemoveFirstSpaceRun(p + w + q) == p + q
  {
    assert p + w + q == p + (w + q);
    RemoveFirstSpaceRunSkipsHead(p, w + q);
    assert (w + q)[0] == w[0];
    TrimStartOfSpaces(w, q);
  }

  /** Every character the replacement keeps comes from `s`, so a string
      without capitals stays without capitals. */
  lemma {:induction false} RemoveFirstSpaceRunKeepsNoUpper(s: string)
    requires NoUpper(s)
    ensures NoUpper(RemoveFirstSpaceRun(s))
    decreases |s|
  {
    if |s| == 0 {
    } else if IsSpace(s[0]) {
      var t := TrimStart(s);
      assert forall i :: 0 <= i < |t| ==> t[i] == s[|s| - |t| + i];
    } else {
      RemoveFirstSpaceRunKeepsNoUpper(s[1..]);
    }
  }

  lemma TrimKeepsNoUpper(s: string)
    requires NoUpper(s)
    ensures NoUpper(Trim(s))
  {
    var r := Trim(s);
    var a := LeadingSpaces(s);
    TrimIsPiece(s);
    forall i | 0 <= i < |r| ensures !IsUpper(r[i]) {
      assert r[i] == s[a + i];
    }
  }

  /** The e-mail key written into a new account: lower-cased, first
      whitespace run removed, then trimmed. */
  function NormalizeEmail(e: string): (key: string)
    ensures |key| <= |e|
    ensures NoUpper(key)
    ensures key == [] || (!IsSpace(key[0]) && !IsSpace(key[|key| - 1]))
  {
    var m := RemoveFirstSpaceRun(Lower(e));
    RemoveFirstSpaceRunKeepsNoUpper(Lower(e));
    TrimKeepsNoUpper(m);
    Trim(m)
  }

  /** A normalised e-mail carries no capital, so lower-casing it again (the
      duplicate check's key) gives it back unchanged. */
  lemma NormalizeEmailIsLower(e: string)
    ensures NoUpper(NormalizeEmail(e))
    ensures Lower(NormalizeEmail(e)) == NormalizeEmail(e)
  {
    LowerFixes(NormalizeEmail(e));
  }

  /** Because the regex is not global, a second whitespace run inside the
      e-mail is still present in the stored key: `a b c` is stored as
      `ab c`. */
  lemma NormalizeEmailKeepsSecondRun(a: string, b: string, c: string)
    requires a != [] && b != [] && c != []
    requires NoSpace(a) && NoSpace(b) && NoSpace(c)
    requires NoUpper(a + " " + b + " " + c)
    ensures NormalizeEmail(a + " " + b + " " + c) == a + b + " " + c
  {
    var e := a + " " + b + " " + c;
    LowerFixes(e);
    var rest := b + " " + c;
    assert e == a + " " + rest;
    assert rest[0] == b[0];
    RemoveFirstSpaceRunCuts(a, " ", rest);
    var m := a + rest;
    assert m == a + b + " " + c;
    assert m[0] == a[0];
    assert m[|m| - 1] == c[|c| - 1];
    TrimOfPadded("", m, "");
    assert "" + m + "" == m;
  }

  /** Leading whitespace is invisible in the stored key but not in the
      lower-cased one. */
  lemma NormalizeEmailDropsPadding(w: string, x: string)
    requires w != [] && AllSpace(w)
    requires x != [] && NoSpace(x) && NoUpper(w + x)
    ensures Lower(w + x) == w + x
    ensures NormalizeEmail(w + x) == x
  {
    LowerFixes(w + x);
    RemoveFirstSpaceRunCuts([], w, x);
    assert [] + w + x == w + x;
    assert [] + x == x;
    TrimOfPadded("", x, "");
    assert "" + x + "" == x;
  }

  /** Position of the first `c` in `s`. */
  function IndexOf(s: string, c: char): (i: nat)
    requires c in s
    ensures i < |s| && s[i] == c && c !in s[..i]
  {
    if s[0] == c then 0
    else
      assert c in s[1..] by {
        var k :| 0 <= k < |s| && s[k] == c;
        assert s[1..][k - 1] == c;
      }
      var j := IndexOf(s[1..], c);
      assert s[..j + 1] == [s[0]] + s[1..][..j];
      j + 1
  }

  /** `split` on a one-character separator: every piece is free of the
      separator, and there is always at least one piece. */
  function Split(s: string, sep: char): (parts: seq<string>)
    ensures |parts| >= 1
    ensures forall k :: 0 <= k < |parts| ==> sep !in parts[k]
    decreases |s|
  {
    if sep !in s then [s]
    else
      var i := IndexOf(s, sep);
      [s[..i]] + Split(s[i + 1..], sep)
  }

  /** `join`: the inverse of `Split`. */
  function Join(parts: seq<string>, sep: char): (s: string)
    requires |parts| >= 1
    decreases |parts|
  {
    if |parts| == 1 then parts[0] else parts[0] + [sep] + Join(parts[1..], sep)
  }

  /** Splitting and joining back loses nothing. */
  lemma {:induction false} JoinSplit(s: string, sep: char)
    ensures Join(Split(s, sep), sep) == s
    decreases |s|
  {
    if sep in s {
      var i := IndexOf(s, sep);
      JoinSplit(s[i + 1..], sep);
      assert Split(s, sep)[1..] == Split(s[i + 1..], sep);
      assert s == s[..i] + [sep] + s[i + 1..];
    }
  }

  /** Splitting at a leading piece without separator peels that piece off. */
  lemma SplitPeel(a: string, sep: char, b: string)
    requires sep !in a
    ensures Split(a + [sep] + b, sep) == [a] + Split(b, sep)
  {
    var s := a + [sep] + b;
    assert s[|a|] == sep;
    var i := IndexOf(s, sep);
    assert s[..i] == a;
    assert s[i + 1..] == b;
  }

  /** Joining separator-free pieces and splitting again gives the pieces
      back. */
  lemma {:induction false} SplitJoin(parts: seq<string>, sep: char)
    requires |parts| >= 1
    requires forall k :: 0 <= k < |parts| ==> sep !in parts[k]
    ensures Split(Join(parts, sep), sep) == parts
    decreases |parts|
  {
    if |parts| > 1 {
      SplitJoin(parts[1..], sep);
      SplitPeel(parts[0], sep, Join(parts[1..], sep));
      assert parts == [parts[0]] + parts[1..];
    }
  }
}
