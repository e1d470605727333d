/** `extract_names`: the speaker labels `Name:` at the start of transcript
    lines, gathered in a set and returned in sorted order. */
module NameExtractor {
  import opened Text

  datatype Option<T> = None | Some(value: T)

  /** A string the group `[A-Z][a-zA-Z]+` matches in full. */
  predicate IsName(n: string)
  {
    |n| >= 2 && IsUpper(n[0]) && forall i :: 1 <= i < |n| ==> IsLetter(n[i])
  }

  /** The end of the run of ASCII letters in `line` that starts at `k`. */
  function LetterRunEnd(line: string, k: nat): (e: nat)
    requires k <= |line|
    ensures k <= e <= |line|
    ensures forall i :: k <= i < e ==> IsLetter(line[i])
    ensures e == |line| || !IsLetter(line[e])
    decreases |line| - k
  {
    if k < |line| && IsLetter(line[k]) then LetterRunEnd(line, k + 1) else k
  }

  /** `re.match(r"^([A-Z][a-zA-Z]+):", line)`: the greedy letter run after the
      capital must be followed by ':'; the run cannot give back letters to
      reach a ':' since ':' is not a letter. */
  function SpeakerLabel(line: string): Option<string>
  {
    if |line| == 0 || !IsUpper(line[0]) then None
    else
      var e := LetterRunEnd(line, 1);
      if e >= 2 && e < |line| && line[e] == ':' then Some(line[..e]) else None
  }

  /** A line yields the label `n` iff it starts with `n` followed by ':' and
      `n` is a capital followed by one or more letters. */
  lemma SpeakerLabelIff(line: string, n: string)
    ensures SpeakerLabel(line) == Some(n) <==> IsName(n) && n + [':'] <= line
  {
    if IsName(n) && n + [':'] <= line {
      assert line[0] == n[0];
      forall i | 1 <= i < |n| ensures IsLetter(line[i]) {
        assert line[i] == n[i];
      }
      assert line[|n|] == ':';
      LetterRunEndAt(line, 1, |n|);
      assert line[..|n|] == n;
    }
  }

  /** The letter run from `k` ends at `e` when `line[k..e]` are letters and `line[e]` is not. */
  lemma {:induction false} LetterRunEndAt(line: string, k: nat, e: nat)
    requires k <= e < |line|
    requires forall i :: k <= i < e ==> IsLetter(line[i])
    requires !IsLetter(line[e])
    ensures LetterRunEnd(line, k) == e
    decreases e - k
  {
    if k < e {
      LetterRunEndAt(line, k + 1, e);
    }
  }

  /** Every label found in `lines`, as a set. */
  function Labels(lines: seq<string>): (names: set<string>)
    ensures forall n :: n in names ==> IsName(n)
  {
    set l | l in lines && SpeakerLabel(l).Some? :: SpeakerLabel(l).value
  }

  /** A name is found iff some line starts with it followed by ':'. */
  lemma LabelsIff(lines: seq<string>, n: string)
    ensures n in Labels(lines) <==> exists l :: l in lines && IsName(n) && n + [':'] <= l
  {
    forall l | l in lines {
      SpeakerLabelIff(l, n);
    }
  }

  /** Python's `<` on strings: code-point lexicographic order. */
  predicate Below(a: string, b: string)
  {
    |b| > 0 && (|a| == 0 || a[0] < b[0] || (a[0] == b[0] && Below(a[1..], b[1..])))
  }

  lemma BelowIrreflexive(a: string)
    ensures !Below(a, a)
  {
  }

  lemma {:induction false} BelowTransitive(a: string, b: string, c: string)
    requires Below(a, b) && Below(b, c)
    ensures Below(a, c)
  {
    if |a| > 0 && a[0] == b[0] && b[0] == c[0] {
      BelowTransitive(a[1..], b[1..], c[1..]);
    }
  }

  lemma {:induction false} BelowTotal(a: string, b: string)
    requires a != b
    ensures Below(a, b) || Below(b, a)
  {
    if |a| > 0 && |b| > 0 && a[0] == b[0] {
      assert a == [a[0]] + a[1..] && b == [b[0]] + b[1..];
      BelowTotal(a[1..], b[1..]);
    }
  }

  ghost predicate StrictlySorted(s: seq<string>)
  {
    forall i, j :: 0 <= i < j < |s| ==> Below(s[i], s[j])
  }

  /** `m` is the least element of `s`. */
  ghost predicate LeastOf(m: string, s: set<string>)
  {
    m in s && forall y :: y in s && y != m ==> Below(m, y)
  }

  /** A finite non-empty set of strings has a least element. */
  lemma {:induction false} Least(s: set<string>) returns (m: string)
    requires s != {}
    ensures LeastOf(m, s)
    decreases |s|
  {
    var x :| x in s;
    if s == {x} {
      m := x;
    } else {
      var rest := s - {x};
      var r := Least(rest);
      if Below(r, x) {
        m := r;
        forall y | y in s && y != m ensures Below(m, y) {
          if y != x { assert y in rest; }
        }
      } else {
        BelowTotal(r, x);
        m := x;
        forall y | y in s && y != x ensures Below(x, y) {
          if y != r {
            assert y in rest;
            BelowTransitive(x, r, y);
          }
        }
      }
    }
  }

  /** `extract_names`: each line's label is added to a set; the set is then
      listed in ascending order. */
  method ExtractNames(lines: seq<string>) returns (sortedNames: seq<string>)
    ensures StrictlySorted(sortedNames)
    ensures forall n :: n in sortedNames <==> n in Labels(lines)
    ensures |sortedNames| == |Labels(lines)|
    ensures lines == [] ==> sortedNames == []
  {
    var names: set<string> := {};
    for i := 0 to |lines|
      invariant names == Labels(lines[..i])
    {
      assert lines[..i + 1] == lines[..i] + [lines[i]];
      var m := SpeakerLabel(lines[i]);
      if m.Some? {
        names := names + {m.value};
      }
    }
    assert lines[..|lines|] == lines;

    // sorted(names): repeatedly move the least remaining name to the end.
    sortedNames := [];
    var rest := names;
    while rest != {}
      invariant rest <= names
      invariant StrictlySorted(sortedNames)
      invariant forall n :: n in sortedNames <==> n in names && n !in rest
      invariant forall x, y :: x in sortedNames && y in rest ==> Below(x, y)
      invariant |sortedNames| + |rest| == |names|
      decreases |rest|
    {
      ghost var least := Least(rest);
      var m :| m in rest && forall y :: y in rest && y != m ==> Below(m, y);
      sortedNames := sortedNames + [m];
      rest := rest - {m};
    }
  }

  /** Two ascending, repeat-free lists with the same elements are equal: the
      result of `sorted` is determined by the set of names. */
  lemma {:induction false} SortedUnique(a: seq<string>, b: seq<string>)
    requires StrictlySorted(a) && StrictlySorted(b)
    requires forall n :: n in a <==> n in b
    ensures a == b
    decreases |a|
  {
    assert a != [] ==> a[0] in a;
    assert b != [] ==> b[0] in b;
    if a != [] && b != [] {
      if a[0] != b[0] {
        assert b[0] in a && a[0] in b;
        var i :| 0 <= i < |a| && a[i] == b[0];
        var j :| 0 <= j < |b| && b[j] == a[0];
        assert Below(a[0], b[0]) by {
          assert i > 0;
        }
        assert Below(b[0], a[0]) by {
          assert j > 0;
        }
        BelowTransitive(a[0], b[0], a[0]);
        BelowIrreflexive(a[0]);
      }
      forall n ensures n in a[1..] <==> n in b[1..] {
        if n in a[1..] {
          var i :| 0 <= i < |a[1..]| && a[1..][i] == n;
          assert a[i + 1] == n && Below(a[0], n);
          if n == b[0] { BelowIrreflexive(n); }
          assert n in a;
          var j :| 0 <= j < |b| && b[j] == n;
          assert b[1..][j - 1] == n;
        }
        if n in b[1..] {
          var j :| 0 <= j < |b[1..]| && b[1..][j] == n;
          assert b[j + 1] == n && Below(b[0], n);
          if n == a[0] { BelowIrreflexive(n); }
          assert n in b;
          var i :| 0 <= i < |a| && a[i] == n;
          assert a[1..][i - 1] == n;
        }
      }
      SortedUnique(a[1..], b[1..]);
      assert a == [a[0]] + a[1..] && b == [b[0]] + b[1..];
    }
  }

  /** The labels depend only on which lines occur, not on their order or repetition. */
  lemma LabelsIgnoreOrder(lines1: seq<string>, lines2: seq<string>)
    requires forall l :: l in lines1 <==> l in lines2
    ensures Labels(lines1) == Labels(lines2)
  {
  }

  /** Reordering the transcript lines cannot change what `extract_names` returns. */
  lemma NamesIgnoreOrder(lines1: seq<string>, lines2: seq<string>, names1: seq<string>, names2: seq<string>)
    requires forall l :: l in lines1 <==> l in lines2
    requires StrictlySorted(names1) && forall n :: n in names1 <==> n in Labels(lines1)
    requires StrictlySorted(names2) && forall n :: n in names2 <==> n in Labels(lines2)
    ensures names1 == names2
  {
    LabelsIgnoreOrder(lines1, lines2);
    SortedUnique(names1, names2);
  }
}
