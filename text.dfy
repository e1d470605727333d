/** Plain string helpers shared by the dependency builder and the owner resolver:
    ASCII lower-casing, substring search (Python's `k in s`), the first
    whitespace-delimited token (Python's `s.split()[0]`) and subsequences. */
module Text {

  /** The characters Python's `str.split()` treats as separators (`str.isspace`). */
  predicate IsSpace(c: char) {
    || c == ' ' || '\t' <= c <= '\r' || '\U{1c}' <= c <= '\U{1f}' || c == '\U{85}' || c == '\U{a0}'
    || c == '\U{1680}' || '\U{2000}' <= c <= '\U{200a}' || c == '\U{2028}' || c == '\U{2029}'
    || c == '\U{202f}' || c == '\U{205f}' || c == '\U{3000}'
  }

  predicate IsUpper(c: char) { 'A' <= c <= 'Z' }

  predicate IsLetter(c: char) { 'A' <= c <= 'Z' || 'a' <= c <= 'z' }

  /** A capital becomes the small letter at the same place in the alphabet;
      every other character is kept. */
  function LowerChar(c: char): (r: char)
    ensures !IsUpper(r)
    ensures IsUpper(c) ==> 'a' <= r <= 'z' && r as int - 'a' as int == c as int - 'A' as int
    ensures !IsUpper(c) ==> r == c
  {
    if IsUpper(c) then (c as int + 32) as char else c
  }

  /** `s.lower()` on the ASCII range: no capital is left, each capital becomes
      its small letter in place, and every other character is kept. */
  function Lower(s: string): (r: string)
    ensures |r| == |s|
    ensures forall i :: 0 <= i < |r| ==> !IsUpper(r[i])
    ensures forall i :: 0 <= i < |s| && !IsUpper(s[i]) ==> r[i] == s[i]
    ensures forall i :: 0 <= i < |s| && IsUpper(s[i]) ==>
              'a' <= r[i] <= 'z' && r[i] as int - 'a' as int == s[i] as int - 'A' as int
  {
    seq(|s|, i requires 0 <= i < |s| => LowerChar(s[i]))
  }

  /** Lower-casing twice is lower-casing once. */
  lemma LowerIdempotent(s: string)
    ensures Lower(Lower(s)) == Lower(s)
  {
  }

  /** A text with no capital is its own lower-cased form. */
  lemma LowerOfLower(s: string)
    requires forall i :: 0 <= i < |s| ==> !IsUpper(s[i])
    ensures Lower(s) == s
  {
  }

  /** Lower-casing works character by character, so it distributes over `+`. */
  lemma LowerAppend(a: string, b: string)
    ensures Lower(a + b) == Lower(a) + Lower(b)
  {
  }

  /** `k[m..]` matches `s` from position `i + m` on. */
  predicate MatchesFrom(s: string, k: string, i: nat, m: nat)
    requires i + |k| <= |s| && m <= |k|
    decreases |k| - m
  {
    m == |k| || (s[i + m] == k[m] && MatchesFrom(s, k, i, m + 1))
  }

  /** `k` occurs in `s` at some position `p >= i`. */
  predicate ContainsFrom(s: string, k: string, i: nat)
    decreases |s| - i
  {
    i + |k| <= |s| && (MatchesFrom(s, k, i, 0) || ContainsFrom(s, k, i + 1))
  }

  /** `k in s` for strings: `k` occurs as a contiguous block of `s`. */
  predicate Contains(s: string, k: string)
  {
    ContainsFrom(s, k, 0)
  }

  /** The block of `s` of length `|k|` starting at `i` is `k`. */
  ghost predicate OccursAt(s: string, k: string, i: int)
  {
    0 <= i && i + |k| <= |s| && s[i..i + |k|] == k
  }

  lemma {:induction false} MatchesFromIff(s: string, k: string, i: nat, m: nat)
    requires i + |k| <= |s| && m <= |k|
    ensures MatchesFrom(s, k, i, m) <==> s[i + m..i + |k|] == k[m..]
    decreases |k| - m
  {
    if m < |k| {
      MatchesFromIff(s, k, i, m + 1);
      assert s[i + m..i + |k|] == [s[i + m]] + s[i + m + 1..i + |k|];
      assert k[m..] == [k[m]] + k[m + 1..];
    }
  }

  /** ContainsFrom agrees with the positional definition of an occurrence. */
  lemma {:induction false} ContainsFromIff(s: string, k: string, i: nat)
    ensures ContainsFrom(s, k, i) <==> exists p :: i <= p && OccursAt(s, k, p)
    decreases |s| - i
  {
    if i + |k| <= |s| {
      MatchesFromIff(s, k, i, 0);
      ContainsFromIff(s, k, i + 1);
      assert OccursAt(s, k, i) <==> MatchesFrom(s, k, i, 0);
      if exists p :: i <= p && OccursAt(s, k, p) {
        var p :| i <= p && OccursAt(s, k, p);
        assert p == i || (i + 1 <= p && OccursAt(s, k, p));
      }
    }
  }

  /** Contains agrees with the positional definition of a substring. */
  lemma ContainsIff(s: string, k: string)
    ensures Contains(s, k) <==> exists i :: OccursAt(s, k, i)
  {
    ContainsFromIff(s, k, 0);
  }

  /** An occurrence at position `i` makes `s` contain `k`. */
  lemma ContainsAt(s: string, k: string, i: int)
    requires OccursAt(s, k, i)
    ensures Contains(s, k)
  {
    ContainsIff(s, k);
  }

  /** A string that contains `k` has an occurrence of `k` at some position. */
  lemma ContainsWitness(s: string, k: string)
    requires Contains(s, k)
    ensures exists i :: OccursAt(s, k, i)
  {
    ContainsIff(s, k);
  }

  /** `any(k in s for k in ks)`. */
  predicate ContainsAny(s: string, ks: seq<string>)
  {
    exists k :: k in ks && Contains(s, k)
  }

  /** A match of the whole of `k` at position `i` makes `s` contain `k`. */
  lemma MatchContains(s: string, k: string, i: nat)
    requires i + |k| <= |s| && MatchesFrom(s, k, i, 0)
    ensures Contains(s, k)
  {
    MatchesFromIff(s, k, i, 0);
    ContainsAt(s, k, i);
  }

  /** A block of `s` that contains `k` makes `s` contain `k`. */
  lemma ContainsInBlock(s: string, i: nat, j: nat, k: string)
    requires i <= j <= |s| && Contains(s[i..j], k)
    ensures Contains(s, k)
  {
    ContainsWitness(s[i..j], k);
    var p :| OccursAt(s[i..j], k, p);
    forall q | 0 <= q < |k| ensures s[i + p + q] == k[q] {
      assert k[q] == s[i..j][p..p + |k|][q] == s[i..j][p + q];
    }
    assert s[i + p..i + p + |k|] == k;
    ContainsAt(s, k, i + p);
  }

  /** A string that lacks some character of `k` cannot contain `k`. */
  lemma MissingCharNotContains(s: string, k: string, c: char)
    requires c in k && c !in s
    ensures !Contains(s, k)
  {
    ContainsIff(s, k);
  }

  /** Containment passes from a block to the whole string. */
  lemma ContainsTrans(s: string, k: string, b: string)
    requires Contains(s, k) && Contains(k, b)
    ensures Contains(s, b)
  {
    ContainsWitness(s, k);
    var i :| OccursAt(s, k, i);
    assert s[i..i + |k|] == k;
    ContainsInBlock(s, i, i + |k|, b);
  }

  /** Each character of an occurrence is the character of `s` at that place. */
  lemma CharOfOccurrence(s: string, k: string, i: int, p: int)
    requires OccursAt(s, k, i) && i <= p < i + |k|
    ensures k[p - i] == s[p]
  {
    assert k[p - i] == s[i..i + |k|][p - i];
  }

  /** An occurrence of `k` in `a + [c] + b` that cannot span the character `c`
      (because `c` is not in `k`) lies in `a` or in `b`. */
  lemma ContainsAcross(a: string, c: char, b: string, k: string)
    requires c !in k && Contains(a + [c] + b, k)
    ensures Contains(a, k) || Contains(b, k)
  {
    var s := a + [c] + b;
    ContainsWitness(s, k);
    var i :| OccursAt(s, k, i);
    if i + |k| <= |a| {
      assert a[i..i + |k|] == s[i..i + |k|];
      ContainsAt(a, k, i);
    } else if i > |a| {
      assert b[i - |a| - 1..i - |a| - 1 + |k|] == s[i..i + |k|];
      ContainsAt(b, k, i - |a| - 1);
    } else {
      CharOfOccurrence(s, k, i, |a|);
      assert false;
    }
  }

  /** The pieces `ws[i..]` joined by the character `c`. */
  function JoinWith(ws: seq<string>, c: char, i: nat): string
    requires i < |ws|
    decreases |ws| - i
  {
    if i == |ws| - 1 then ws[i] else ws[i] + [c] + JoinWith(ws, c, i + 1)
  }

  /** A keyword that holds no `c` and is in no piece is not in the pieces joined by `c`. */
  lemma {:induction false} NotInJoin(ws: seq<string>, c: char, i: nat, ks: seq<string>)
    requires i < |ws|
    requires forall k :: k in ks ==> c !in k
    requires forall w, k :: w in ws && k in ks ==> !Contains(w, k)
    ensures forall k :: k in ks ==> !Contains(JoinWith(ws, c, i), k)
    decreases |ws| - i
  {
    if i < |ws| - 1 {
      NotInJoin(ws, c, i + 1, ks);
      forall k | k in ks ensures !Contains(JoinWith(ws, c, i), k) {
        if Contains(JoinWith(ws, c, i), k) {
          ContainsAcross(ws[i], c, JoinWith(ws, c, i + 1), k);
        }
      }
    }
  }

  /** A block of `a` is a block of `a + b`. */
  lemma ContainsLeft(a: string, b: string, k: string)
    requires Contains(a, k)
    ensures Contains(a + b, k)
  {
    assert (a + b)[0..|a|] == a;
    ContainsInBlock(a + b, 0, |a|, k);
  }

  /** A block of `b` is a block of `a + b`. */
  lemma ContainsRight(a: string, b: string, k: string)
    requires Contains(b, k)
    ensures Contains(a + b, k)
  {
    assert (a + b)[|a|..|a + b|] == b;
    ContainsInBlock(a + b, |a|, |a + b|, k);
  }

  /** A block of one piece is a block of the joined text. */
  lemma {:induction false} WordInJoin(ws: seq<string>, c: char, i: nat, j: nat, k: string)
    requires i <= j < |ws| && Contains(ws[j], k)
    ensures Contains(JoinWith(ws, c, i), k)
    decreases |ws| - i
  {
    if i < |ws| - 1 {
      var rest := JoinWith(ws, c, i + 1);
      if i == j {
        ContainsLeft(ws[i], [c] + rest, k);
        assert ws[i] + [c] + rest == ws[i] + ([c] + rest);
      } else {
        WordInJoin(ws, c, i + 1, j, k);
        ContainsRight(ws[i] + [c], rest, k);
      }
    }
  }

  /** A block of two neighbouring pieces and the separator between them is a
      block of the joined text. */
  lemma {:induction false} PairInJoin(ws: seq<string>, c: char, i: nat, j: nat, k: string)
    requires i <= j && j + 1 < |ws| && Contains(ws[j] + [c] + ws[j + 1], k)
    ensures Contains(JoinWith(ws, c, i), k)
    decreases |ws| - i
  {
    var pair := ws[j] + [c] + ws[j + 1];
    if i == j {
      if j + 1 < |ws| - 1 {
        var tail := [c] + JoinWith(ws, c, j + 2);
        assert JoinWith(ws, c, i) == pair + tail;
        ContainsLeft(pair, tail, k);
      }
    } else {
      PairInJoin(ws, c, i + 1, j, k);
      ContainsRight(ws[i] + [c], JoinWith(ws, c, i + 1), k);
    }
  }

  /** A character that is neither the separator nor in any piece is not in the joined text. */
  lemma {:induction false} CharNotInJoin(ws: seq<string>, c: char, i: nat, x: char)
    requires i < |ws| && x != c && forall w :: w in ws ==> x !in w
    ensures x !in JoinWith(ws, c, i)
    decreases |ws| - i
  {
    assert ws[i] in ws;
    if i < |ws| - 1 {
      CharNotInJoin(ws, c, i + 1, x);
    }
  }

  /** An occurrence of `[c] + p` in `a + [c] + b`, where `a` and `p` hold no `c`,
      starts at that `c` (so `b` starts with `p`) or lies in `b`. */
  lemma SepPrefixAcross(a: string, c: char, b: string, p: string)
    requires c !in a && c !in p && Contains(a + [c] + b, [c] + p)
    ensures p <= b || Contains(b, [c] + p)
  {
    var s := a + [c] + b;
    var k := [c] + p;
    ContainsWitness(s, k);
    var q :| OccursAt(s, k, q);
    CharOfOccurrence(s, k, q, q);
    assert s[q] == c;
    assert forall x :: 0 <= x < |a| ==> s[x] == a[x] != c;
    if q < |a| {
      assert false;
    } else if q == |a| {
      assert s[q..q + |k|] == k;
      assert s[q + 1..q + 1 + |p|] == s[q..q + |k|][1..] == k[1..] == p;
      assert b[..|p|] == s[q + 1..q + 1 + |p|];
    } else {
      assert b[q - |a| - 1..q - |a| - 1 + |k|] == s[q..q + |k|];
      ContainsAt(b, k, q - |a| - 1);
    }
  }

  /** A prefix without `c` of `w + [c] + r` is a prefix of `w`. */
  lemma PrefixBeforeSep(w: string, c: char, r: string, p: string)
    requires c !in p && p <= w + [c] + r
    ensures p <= w
  {
    assert (w + [c] + r)[|w|] == c;
    assert forall x :: 0 <= x < |p| ==> p[x] != c;
    if |p| > |w| {
      assert false;
    }
  }

  /** When no piece starts with `p` (and none holds the separator), the
      separator followed by `p` is not in the joined text. */
  lemma {:induction false} SepPrefixNotInJoin(ws: seq<string>, c: char, i: nat, p: string)
    requires i < |ws| && c !in p
    requires forall w :: w in ws ==> c !in w && !(p <= w)
    ensures !Contains(JoinWith(ws, c, i), [c] + p)
    decreases |ws| - i
  {
    assert ws[i] in ws;
    if i == |ws| - 1 {
      MissingCharNotContains(ws[i], [c] + p, c);
    } else {
      var rest := JoinWith(ws, c, i + 1);
      SepPrefixNotInJoin(ws, c, i + 1, p);
      if Contains(ws[i] + [c] + rest, [c] + p) {
        SepPrefixAcross(ws[i], c, rest, p);
        assert ws[i + 1] in ws;
        if i + 1 < |ws| - 1 {
          PrefixBeforeSep(ws[i + 1], c, JoinWith(ws, c, i + 2), p);
        }
      }
    }
  }

  /** Lower-casing each piece. */
  function LowerEach(ws: seq<string>): seq<string>
  {
    seq(|ws|, j requires 0 <= j < |ws| => Lower(ws[j]))
  }

  /** Lower-casing pieces joined by a character that is no capital lower-cases
      each piece. */
  lemma {:induction false} LowerJoin(ws: seq<string>, c: char, i: nat)
    requires i < |ws| && !IsUpper(c)
    ensures Lower(JoinWith(ws, c, i)) == JoinWith(LowerEach(ws), c, i)
    decreases |ws| - i
  {
    if i < |ws| - 1 {
      var rest := JoinWith(ws, c, i + 1);
      LowerJoin(ws, c, i + 1);
      LowerAppend(ws[i] + [c], rest);
      LowerAppend(ws[i], [c]);
    }
  }

  /** Some character of `s` is not whitespace: `s.split()` is non-empty. */
  predicate HasToken(s: string)
  {
    exists i :: 0 <= i < |s| && !IsSpace(s[i])
  }

  /** The run of non-space characters at the front of `s`. */
  function LeadingRun(s: string): (w: string)
    ensures w <= s
    ensures forall i :: 0 <= i < |w| ==> !IsSpace(w[i])
    ensures |w| == |s| || IsSpace(s[|w|])
  {
    if s == [] || IsSpace(s[0]) then [] else [s[0]] + LeadingRun(s[1..])
  }

  /** The leading run of a space-free `w` followed by the end or by a space is `w`. */
  lemma {:induction false} LeadingRunOf(w: string, rest: string)
    requires forall i :: 0 <= i < |w| ==> !IsSpace(w[i])
    requires rest == [] || IsSpace(rest[0])
    ensures LeadingRun(w + rest) == w
  {
    if w != [] {
      assert (w + rest)[1..] == w[1..] + rest;
      LeadingRunOf(w[1..], rest);
    } else {
      assert w + rest == rest;
    }
  }

  /** `s.split()[0]`, and the empty string when `s` has no token: the result
      is a run of non-space characters, empty exactly when `s` has no token. */
  function FirstWord(s: string): (w: string)
    ensures forall i :: 0 <= i < |w| ==> !IsSpace(w[i])
    ensures w != [] <==> HasToken(s)
  {
    if s == [] then []
    else if IsSpace(s[0]) then
      assert HasToken(s) ==> HasToken(s[1..]) by {
        if HasToken(s) {
          var i :| 0 <= i < |s| && !IsSpace(s[i]);
          assert s[1..][i - 1] == s[i];
        }
      }
      FirstWord(s[1..])
    else LeadingRun(s)
  }

  /** After leading whitespace `ws`, the first word is the maximal space-free
      run `w`: it ends at the end of the text or at a space. */
  lemma {:induction false} FirstWordOf(ws: string, w: string, rest: string)
    requires forall i :: 0 <= i < |ws| ==> IsSpace(ws[i])
    requires w != [] && forall i :: 0 <= i < |w| ==> !IsSpace(w[i])
    requires rest == [] || IsSpace(rest[0])
    ensures FirstWord(ws + w + rest) == w
  {
    if ws == [] {
      assert ws + w + rest == w + rest;
      LeadingRunOf(w, rest);
    } else {
      assert (ws + w + rest)[1..] == ws[1..] + w + rest;
      FirstWordOf(ws[1..], w, rest);
    }
  }

  /** The first word of pieces joined by single spaces is the first piece,
      when that piece is a non-empty run without whitespace. */
  lemma FirstWordJoin(ws: seq<string>)
    requires ws != [] && ws[0] != [] && forall i :: 0 <= i < |ws[0]| ==> !IsSpace(ws[0][i])
    ensures FirstWord(JoinWith(ws, ' ', 0)) == ws[0]
  {
    if |ws| == 1 {
      FirstWordOf([], ws[0], []);
      assert [] + ws[0] + [] == ws[0];
    } else {
      var rest := [' '] + JoinWith(ws, ' ', 1);
      FirstWordOf([], ws[0], rest);
      assert [] + ws[0] + rest == JoinWith(ws, ' ', 0);
    }
  }

  /** `a` is obtained from `b` by deleting elements: a filter keeps order. */
  ghost predicate Subseq<T>(a: seq<T>, b: seq<T>)
  {
    a == [] || (b != [] && (Subseq(a, b[..|b| - 1]) || (a[|a| - 1] == b[|b| - 1] && Subseq(a[..|a| - 1], b[..|b| - 1]))))
  }

  /** Appending the same element to both sides keeps a subsequence. */
  lemma SubseqSnoc<T>(a: seq<T>, b: seq<T>, x: T)
    requires Subseq(a, b)
    ensures Subseq(a + [x], b + [x]) && Subseq(a, b + [x])
  {
    assert (a + [x])[..|a + [x]| - 1] == a;
    assert (b + [x])[..|b + [x]| - 1] == b;
  }
}
