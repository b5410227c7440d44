/** The JavaScript string operations the campus assistant relies on:
    `trim` (through the blank-input test), `toLowerCase`, `includes` and
    `split(" ")`, each modelled on `seq<char>`. */
module Text {

  // ---------------------------------------------------------------- trim

  /** The characters `String.prototype.trim` strips: ECMA-262 WhiteSpace
      (TAB, VT, FF, SP, NBSP, ZWNBSP and the Zs category) and LineTerminator
      (LF, CR, LS, PS). */
  predicate IsWhitespace(c: char) {
    c == '\t' || c == '\n' || c == '\U{000B}' || c == '\U{000C}' || c == '\r' || c == ' '
    || c == '\U{00A0}' || c == '\U{1680}' || ('\U{2000}' <= c <= '\U{200A}')
    || c == '\U{2028}' || c == '\U{2029}' || c == '\U{202F}' || c == '\U{205F}'
    || c == '\U{3000}' || c == '\U{FEFF}'
  }

  /** Every character of `s` is whitespace (the empty string included). */
  ghost predicate IsBlank(s: string) {
    forall i :: 0 <= i < |s| ==> IsWhitespace(s[i])
  }

  /** Drops leading whitespace: the result is the longest suffix of `s`
      that does not start with whitespace. */
  function TrimStart(s: string): (r: string)
    ensures |r| <= |s| && r == s[|s| - |r|..]
    ensures r == [] || !IsWhitespace(r[0])
    ensures forall i :: 0 <= i < |s| - |r| ==> IsWhitespace(s[i])
  {
    if s != [] && IsWhitespace(s[0]) then TrimStart(s[1..]) else s
  }

  /** Drops trailing whitespace: the result is the longest prefix of `s`
      that does not end with whitespace. */
  function TrimEnd(s: string): (r: string)
    ensures |r| <= |s| && r == s[..|r|]
    ensures r == [] || !IsWhitespace(r[|r| - 1])
    ensures forall i :: |r| <= i < |s| ==> IsWhitespace(s[i])
  {
    if s != [] && IsWhitespace(s[|s| - 1]) then TrimEnd(s[..|s| - 1]) else s
  }

  /** `s.trim()`. */
  function Trim(s: string): (r: string)
    ensures |r| <= |s|
  {
    TrimEnd(TrimStart(s))
  }

  /** `!s.trim()` holds exactly for the blank strings. */
  lemma TrimEmptyIffBlank(s: string)
    ensures Trim(s) == [] <==> IsBlank(s)
  {
    var t := TrimStart(s);
    if Trim(s) == [] {
      // all of `t` is trailing whitespace, yet `t` cannot start with any
      assert t == [];
    } else {
      var r := Trim(s);
      assert !IsWhitespace(t[0]);
      assert s[|s| - |t|] == t[0];
    }
  }

  // ---------------------------------------------------------- lowercase

  predicate IsUpper(c: char) {
    'A' <= c <= 'Z'
  }

  /** `toLowerCase` on one character, restricted to ASCII letters. */
  function LowerChar(c: char): (d: char)
    ensures !IsUpper(d)
    ensures IsUpper(c) ==> d as int == c as int + 32
    ensures !IsUpper(c) ==> d == c
  {
    if IsUpper(c) then (c as int + 32) as char else c
  }

  /** `s.toLowerCase()` under the ASCII approximation: character by
      character, same length. */
  function Lower(s: string): (r: string)
    ensures |r| == |s|
    ensures forall i :: 0 <= i < |s| ==> r[i] == LowerChar(s[i])
  {
    seq(|s|, i requires 0 <= i < |s| => LowerChar(s[i]))
  }

  /** Lowercasing twice is lowercasing once. */
  lemma LowerIdempotent(s: string)
    ensures Lower(Lower(s)) == Lower(s)
  {
  }

  /** Lowercasing distributes over concatenation. */
  lemma LowerAppend(a: string, b: string)
    ensures Lower(a + b) == Lower(a) + Lower(b)
  {
  }

  /** A string with no upper-case letter is its own lowercase. */
  lemma LowerNoUpper(s: string)
    requires forall c :: c in s ==> !IsUpper(c)
    ensures Lower(s) == s
  {
    assert forall i :: 0 <= i < |s| ==> s[i] in s;
  }

  /** A character that no character of `s` lowercases to is missing from
      `Lower(s)`. */
  lemma LowerLacks(s: string, c: char)
    requires forall d :: d in s ==> LowerChar(d) != c
    ensures c !in Lower(s)
  {
    assert forall i :: 0 <= i < |s| ==> s[i] in s;
  }

  // ----------------------------------------------------------- includes

  /** `sub[j..]` sits in `s` at offset `i + j`, compared character by
      character. */
  predicate MatchesAt(s: string, sub: string, i: nat, j: nat)
    requires i + |sub| <= |s|
    decreases |sub| - j
  {
    j >= |sub| || (s[i + j] == sub[j] && MatchesAt(s, sub, i, j + 1))
  }

  /** `sub` occurs in `s` at some offset `i` or later. */
  predicate ContainsFrom(s: string, sub: string, i: nat)
    decreases |s| - i
  {
    i + |sub| <= |s| && (MatchesAt(s, sub, i, 0) || ContainsFrom(s, sub, i + 1))
  }

  /** `s.includes(sub)`: a left-to-right scan over the offsets of `s`. */
  predicate Contains(s: string, sub: string) {
    ContainsFrom(s, sub, 0)
  }

  /** `sub` is a contiguous slice of `s` starting at `k`. */
  ghost predicate OccursAt(s: string, sub: string, k: int) {
    0 <= k && k + |sub| <= |s| && s[k..k + |sub|] == sub
  }

  lemma {:induction false} MatchesAtIff(s: string, sub: string, i: nat, j: nat)
    requires i + |sub| <= |s| && j <= |sub|
    ensures MatchesAt(s, sub, i, j) <==> s[i + j..i + |sub|] == sub[j..]
    decreases |sub| - j
  {
    if j < |sub| {
      MatchesAtIff(s, sub, i, j + 1);
      assert s[i + j..i + |sub|] == [s[i + j]] + s[i + j + 1..i + |sub|];
      assert sub[j..] == [sub[j]] + sub[j + 1..];
    }
  }

  lemma {:induction false} ContainsFromIff(s: string, sub: string, i: nat)
    ensures ContainsFrom(s, sub, i) <==> exists k :: i <= k && OccursAt(s, sub, k)
    decreases |s| - i
  {
    if i + |sub| <= |s| {
      MatchesAtIff(s, sub, i, 0);
      ContainsFromIff(s, sub, i + 1);
      assert sub[0..] == sub;
      assert MatchesAt(s, sub, i, 0) <==> OccursAt(s, sub, i);
      if exists k :: i <= k && OccursAt(s, sub, k) {
        var k :| i <= k && OccursAt(s, sub, k);
        if k > i {
          assert i + 1 <= k && OccursAt(s, sub, k);
        }
      }
    }
  }

  /** The scan finds `sub` exactly when `sub` is a slice of `s`. */
  lemma ContainsIff(s: string, sub: string)
    ensures Contains(s, sub) <==> exists k :: OccursAt(s, sub, k)
  {
    ContainsFromIff(s, sub, 0);
  }

  /** A slice found at a known offset is contained. */
  lemma ContainsAt(s: string, sub: string, k: int)
    requires OccursAt(s, sub, k)
    ensures Contains(s, sub)
  {
    ContainsIff(s, sub);
  }

  /** Lowercasing keeps every occurrence, lowercased. */
  lemma LowerContains(s: string, sub: string)
    requires Contains(s, sub)
    ensures Contains(Lower(s), Lower(sub))
  {
    ContainsIff(s, sub);
    var k :| OccursAt(s, sub, k);
    assert forall m :: 0 <= m < |sub| ==> Lower(s)[k + m] == LowerChar(sub[m]) by {
      assert forall m :: 0 <= m < |sub| ==> s[k + m] == sub[m];
    }
    assert Lower(s)[k..k + |sub|] == Lower(sub);
    ContainsAt(Lower(s), Lower(sub), k);
  }

  /** `includes` is transitive. */
  lemma ContainsTransitive(s: string, t: string, u: string)
    requires Contains(s, t) && Contains(t, u)
    ensures Contains(s, u)
  {
    ContainsIff(s, t);
    ContainsIff(t, u);
    var i :| OccursAt(s, t, i);
    var j :| OccursAt(t, u, j);
    assert forall m :: 0 <= m < |t| ==> s[i + m] == t[m];
    assert s[i + j..i + j + |u|] == t[j..j + |u|];
    ContainsAt(s, u, i + j);
  }

  /** A needle holding a character the haystack lacks is not contained. */
  lemma NotContainsMissingChar(s: string, sub: string, c: char)
    requires c in sub && c !in s
    ensures !Contains(s, sub)
  {
    ContainsIff(s, sub);
  }

  /** Every character of `s` that an occurrence of `sub` covers is a
      character of `sub`. */
  lemma OccursAtCovers(s: string, sub: string, k: int, p: int)
    ensures OccursAt(s, sub, k) && k <= p < k + |sub| ==> s[p] in sub
  {
    if OccursAt(s, sub, k) && k <= p < k + |sub| {
      assert s[p] == sub[p - k];
    }
  }

  /** A needle without the character `x` that occurs in `a + [x] + b`
      occurs in `a` or in `b`. */
  lemma ContainsAround(a: string, x: char, b: string, sub: string)
    requires x !in sub
    requires Contains(a + [x] + b, sub)
    ensures Contains(a, sub) || Contains(b, sub)
  {
    var s := a + [x] + b;
    ContainsIff(s, sub);
    var k :| OccursAt(s, sub, k);
    OccursAtCovers(s, sub, k, |a|);
    assert s[|a|] == x;
    if k + |sub| <= |a| {
      assert forall m :: 0 <= m < |a| ==> s[m] == a[m];
      assert a[k..k + |sub|] == s[k..k + |sub|];
      ContainsAt(a, sub, k);
    } else if k > |a| {
      assert forall m :: 0 <= m < |b| ==> s[|a| + 1 + m] == b[m];
      assert b[k - |a| - 1..k - |a| - 1 + |sub|] == s[k..k + |sub|];
      ContainsAt(b, sub, k - |a| - 1);
    }
  }

  // -------------------------------------------------------------- split

  /** `s.split(sep)` for a one-character separator: the pieces between
      separators, empty pieces included. */
  function Split(s: string, sep: char): (r: seq<string>)
    ensures |r| >= 1
    ensures forall w :: w in r ==> sep !in w
  {
    if s == [] then [""]
    else
      var rest := Split(s[1..], sep);
      if s[0] == sep then [""] + rest else [[s[0]] + rest[0]] + rest[1..]
  }

  /** `ws.join(sep)`, the inverse of `Split`. */
  function Join(ws: seq<string>, sep: char): string {
    if ws == [] then ""
    else if |ws| == 1 then ws[0]
    else ws[0] + [sep] + Join(ws[1..], sep)
  }

  /** Joining the pieces gives back the original string. */
  lemma {:induction false} JoinSplit(s: string, sep: char)
    ensures Join(Split(s, sep), sep) == s
  {
    if s != [] {
      var rest := Split(s[1..], sep);
      JoinSplit(s[1..], sep);
      if s[0] == sep {
        assert s == [sep] + s[1..];
      } else if |rest| == 1 {
        assert s == [s[0]] + s[1..];
      } else {
        assert Join(rest, sep) == rest[0] + [sep] + Join(rest[1..], sep);
        assert s == [s[0]] + s[1..];
      }
    }
  }

  /** Splitting a join of separator-free pieces gives back the pieces. */
  lemma {:induction false} SplitJoin(ws: seq<string>, sep: char)
    requires |ws| >= 1
    requires forall w :: w in ws ==> sep !in w
    ensures Split(Join(ws, sep), sep) == ws
    decreases |ws|, |ws[0]|
  {
    var w := ws[0];
    if w != [] {
      var ws' := [w[1..]] + ws[1..];
      assert forall v :: v in ws' ==> sep !in v by {
        assert forall c :: c in w[1..] ==> c in w;
      }
      SplitJoin(ws', sep);
      if |ws| == 1 {
        assert Join(ws, sep)[1..] == w[1..];
      } else {
        assert Join(ws, sep)[1..] == Join(ws', sep);
      }
      assert w == [w[0]] + w[1..];
      assert w[0] in w;
    } else if |ws| > 1 {
      SplitJoin(ws[1..], sep);
      assert Join(ws, sep) == [sep] + Join(ws[1..], sep);
      assert Join(ws, sep)[1..] == Join(ws[1..], sep);
    }
  }

  /** Every piece of a join occurs in the joined string. */
  lemma {:induction false} JoinContainsPiece(ws: seq<string>, sep: char, i: int)
    requires 0 <= i < |ws|
    ensures Contains(Join(ws, sep), ws[i])
  {
    if |ws| == 1 {
      ContainsAt(ws[0], ws[0], 0);
    } else if i == 0 {
      ContainsAt(Join(ws, sep), ws[0], 0);
    } else {
      JoinContainsPiece(ws[1..], sep, i - 1);
      var rest := Join(ws[1..], sep);
      ContainsIff(rest, ws[i]);
      var k :| OccursAt(rest, ws[i], k);
      var s := Join(ws, sep);
      var off := |ws[0]| + 1;
      assert s == ws[0] + [sep] + rest;
      assert s[off + k..off + k + |ws[i]|] == rest[k..k + |ws[i]|];
      ContainsAt(s, ws[i], off + k);
    }
  }

  /** Every word of `s.split(sep)` occurs in `s`. */
  lemma SplitPieceOccurs(s: string, sep: char, w: string)
    requires w in Split(s, sep)
    ensures Contains(s, w)
  {
    var ws := Split(s, sep);
    var i :| 0 <= i < |ws| && ws[i] == w;
    JoinContainsPiece(ws, sep, i);
    JoinSplit(s, sep);
  }
}
