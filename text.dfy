/**
 * String helpers the pack picker relies on: prefix tests, splitting and
 * joining on a separator, ASCII lower-casing, substring search, and the
 * code-unit order that JavaScript's default `Array.prototype.sort` uses.
 */
module Text {

  /** `s.startsWith(prefix)` */
  function StartsWith(s: string, prefix: string): (r: bool)
    ensures r <==> |prefix| <= |s| && forall i :: 0 <= i < |prefix| ==> s[i] == prefix[i]
  {
    |prefix| <= |s| && s[..|prefix|] == prefix
  }

  lemma StartsWithSelf(s: string)
    ensures StartsWith(s, s)
  {
    assert s[..|s|] == s;
  }

  lemma StartsWithConcat(prefix: string, rest: string)
    ensures StartsWith(prefix + rest, prefix) && (prefix + rest)[|prefix|..] == rest
  {
    assert (prefix + rest)[..|prefix|] == prefix;
  }

  lemma StartsWithConcat3(prefix: string, middle: string, rest: string)
    ensures StartsWith(prefix + middle + rest, prefix)
  {
    assert prefix + middle + rest == prefix + (middle + rest);
    StartsWithConcat(prefix, middle + rest);
  }

  /* ---------------------------------------------------------------- */
  /*  split(",") and join(sep)                                         */
  /* ---------------------------------------------------------------- */

  /**
   * `s.split(",")`: the maximal comma-free pieces of `s`, empty pieces
   * included, so that `"".split(",")` is `[""]` and `"a,,b"` gives three.
   */
  function Split(s: string): (r: seq<string>)
    ensures |r| >= 1
    ensures forall t :: t in r ==> ',' !in t
    decreases |s|
  {
    if |s| == 0 then [""]
    else
      var rest := Split(s[1..]);
      if s[0] == ',' then [""] + rest
      else [[s[0]] + rest[0]] + rest[1..]
  }

  /** `xs.join(sep)`: every character comes from the separator or from one of the pieces. */
  function Join(xs: seq<string>, sep: string): (r: string)
    ensures |xs| == 0 ==> r == ""
    ensures forall c :: c in r ==> c in sep || exists x :: x in xs && c in x
  {
    if |xs| == 0 then ""
    else if |xs| == 1 then xs[0]
    else xs[0] + sep + Join(xs[1..], sep)
  }

  /** Splitting text that opens with a comma-free run glues that run onto the first piece. */
  lemma {:induction false} SplitCommaFreePrefix(a: string, t: string)
    requires ',' !in a
    ensures Split(a + t) == [a + Split(t)[0]] + Split(t)[1..]
    decreases |a|
  {
    if |a| == 0 {
      assert a + t == t;
      assert Split(t) == [Split(t)[0]] + Split(t)[1..];
      assert a + Split(t)[0] == Split(t)[0];
    } else {
      assert a[0] in a;
      assert (a + t)[0] == a[0];
      assert (a + t)[1..] == a[1..] + t;
      assert forall c :: c in a[1..] ==> c in a;
      SplitCommaFreePrefix(a[1..], t);
      assert [a[0]] + (a[1..] + Split(t)[0]) == a + Split(t)[0];
    }
  }

  lemma SplitAfterComma(rest: string)
    ensures Split("," + rest) == [""] + Split(rest)
  {
    assert ("," + rest)[0] == ',' && ("," + rest)[1..] == rest;
  }

  /** Joined pieces without a comma between them were a single piece. */
  lemma {:induction false} JoinWithoutComma(xs: seq<string>)
    requires |xs| >= 1
    requires ',' !in Join(xs, ",")
    ensures |xs| == 1
  {
  }

  /** Joining comma-free pieces with "," and splitting again gives the pieces back. */
  lemma {:induction false} SplitJoin(xs: seq<string>)
    requires |xs| >= 1
    requires forall t :: t in xs ==> ',' !in t
    ensures Split(Join(xs, ",")) == xs
    decreases |xs|
  {
    if |xs| == 1 {
      SplitCommaFreePrefix(xs[0], "");
      assert xs[0] + "" == xs[0];
    } else {
      var rest := Join(xs[1..], ",");
      assert forall t :: t in xs[1..] ==> t in xs;
      SplitJoin(xs[1..]);
      SplitAfterComma(rest);
      assert xs[0] + "," + rest == xs[0] + ("," + rest);
      SplitCommaFreePrefix(xs[0], "," + rest);
      assert xs[0] + "" == xs[0];
      assert xs == [xs[0]] + xs[1..];
    }
  }

  /** The non-empty pieces of `s.split(",")`, as a set: `new Set(s.split(",").filter(Boolean))`. */
  function Tokens(s: string): (r: set<string>)
    ensures "" !in r
    ensures forall t :: t in r ==> ',' !in t
  {
    set t | t in Split(s) && t != ""
  }

  /* ---------------------------------------------------------------- */
  /*  toLowerCase and includes                                         */
  /* ---------------------------------------------------------------- */

  function LowerChar(c: char): (d: char)
    ensures 'A' <= c <= 'Z' ==> d as int == c as int + 32
    ensures !('A' <= c <= 'Z') ==> d == c
  {
    if 'A' <= c <= 'Z' then (c as int - 'A' as int + 'a' as int) as char else c
  }

  /** `s.toLowerCase()`, restricted to the ASCII letters. */
  function Lower(s: string): (r: string)
    ensures |r| == |s|
    ensures forall i :: 0 <= i < |s| ==> r[i] == LowerChar(s[i])
  {
    if |s| == 0 then "" else [LowerChar(s[0])] + Lower(s[1..])
  }

  /** `q` occurs in `h` starting at position `i` */
  predicate OccursAt(h: string, q: string, i: int)
  {
    0 <= i && i + |q| <= |h| && h[i..i + |q|] == q
  }

  /** Lower-casing keeps every occurrence, lower-cased. */
  lemma LowerOccurs(h: string, q: string, i: int)
    requires OccursAt(h, q, i)
    ensures OccursAt(Lower(h), Lower(q), i)
  {
    forall k | 0 <= k < |q| ensures Lower(h)[i + k] == Lower(q)[k] {
      assert h[i + k] == h[i..i + |q|][k];
    }
  }

  /** `h.includes(q)` */
  function Contains(h: string, q: string): (b: bool)
    ensures b <==> exists i :: OccursAt(h, q, i)
    decreases |h|
  {
    if StartsWith(h, q) then
      assert OccursAt(h, q, 0);
      true
    else if |h| == 0 then
      assert forall i :: !OccursAt(h, q, i);
      false
    else
      var b := Contains(h[1..], q);
      assert forall i :: OccursAt(h[1..], q, i) <==> OccursAt(h, q, i + 1) by {
        forall i ensures OccursAt(h[1..], q, i) <==> OccursAt(h, q, i + 1) {
          if 0 <= i && i + |q| <= |h| - 1 {
            assert h[1..][i..i + |q|] == h[i + 1..i + 1 + |q|];
          }
        }
      }
      assert !OccursAt(h, q, 0);
      assert b ==> exists i :: OccursAt(h, q, i) by {
        if b {
          var i :| OccursAt(h[1..], q, i);
          assert OccursAt(h, q, i + 1);
        }
      }
      assert (exists i :: OccursAt(h, q, i)) ==> b by {
        if exists i :: OccursAt(h, q, i) {
          var i :| OccursAt(h, q, i);
          assert i != 0;
          assert OccursAt(h[1..], q, i - 1);
        }
      }
      b
  }

  /* ---------------------------------------------------------------- */
  /*  The default sort order                                           */
  /* ---------------------------------------------------------------- */

  /**
   * `a` sorts no later than `b` under JavaScript's default comparison:
   * lexicographic by character, a proper prefix first.
   */
  predicate Below(a: string, b: string)
    decreases |a|
  {
    |a| == 0 || (|b| > 0 && (a[0] < b[0] || (a[0] == b[0] && Below(a[1..], b[1..]))))
  }

  lemma {:induction false} BelowReflexive(a: string)
    ensures Below(a, a)
    decreases |a|
  {
    if |a| > 0 { BelowReflexive(a[1..]); }
  }

  lemma {:induction false} BelowTotal(a: string, b: string)
    ensures Below(a, b) || Below(b, a)
    decreases |a|
  {
    if |a| > 0 && |b| > 0 && a[0] == b[0] { BelowTotal(a[1..], b[1..]); }
  }

  lemma {:induction false} BelowAntisymmetric(a: string, b: string)
    requires Below(a, b) && Below(b, a)
    ensures a == b
    decreases |a|
  {
    if |a| > 0 {
      BelowAntisymmetric(a[1..], b[1..]);
      assert a == [a[0]] + a[1..] && b == [b[0]] + b[1..];
    }
  }

  lemma {:induction false} BelowTransitive(a: string, b: string, c: string)
    requires Below(a, b) && Below(b, c)
    ensures Below(a, c)
    decreases |a|
  {
    if |a| > 0 && a[0] == b[0] && b[0] == c[0] { BelowTransitive(a[1..], b[1..], c[1..]); }
  }

  lemma AntisymmetricAll()
    ensures forall a, b :: Below(a, b) && Below(b, a) ==> a == b
  {
    forall a, b | Below(a, b) && Below(b, a) ensures a == b { BelowAntisymmetric(a, b); }
  }

  /** `m` is the first of `s` in sort order */
  predicate IsLeast(m: string, s: set<string>)
  {
    m in s && forall x :: x in s ==> Below(m, x)
  }

  lemma {:induction false} LeastExists(s: set<string>)
    requires s != {}
    ensures exists m :: IsLeast(m, s)
    decreases |s|
  {
    var y :| y in s;
    BelowReflexive(y);
    if s != {y} {
      LeastExists(s - {y});
      var m :| IsLeast(m, s - {y});
      BelowTotal(m, y);
      if Below(m, y) {
        assert IsLeast(m, s);
      } else {
        forall x | x in s ensures Below(y, x) {
          if x != y { BelowTransitive(y, m, x); }
        }
        assert IsLeast(y, s);
      }
    } else {
      assert IsLeast(y, s);
    }
  }

  /** Each element strictly before the next: sorted ascending with no repeats. */
  predicate StrictlySorted(xs: seq<string>)
  {
    forall i, j :: 0 <= i < j < |xs| ==> Below(xs[i], xs[j]) && xs[i] != xs[j]
  }

  /** Putting the least member of `s` before a sorted list of the others sorts `s`. */
  lemma LeastFirst(m: string, s: set<string>, rest: seq<string>)
    requires IsLeast(m, s)
    requires |rest| == |s - {m}| && StrictlySorted(rest)
    requires forall x :: x in rest <==> x in s - {m}
    ensures |[m] + rest| == |s|
    ensures forall x :: x in [m] + rest <==> x in s
    ensures StrictlySorted([m] + rest)
  {
    var r := [m] + rest;
    forall i, j | 0 <= i < j < |r| ensures Below(r[i], r[j]) && r[i] != r[j] {
      if i == 0 {
        assert r[j] == rest[j - 1] && rest[j - 1] in rest;
      } else {
        assert r[i] == rest[i - 1] && r[j] == rest[j - 1];
      }
    }
  }

  /** `Array.from(s).sort()`: the members of `s`, each once, in ascending order. */
  function SortedList(s: set<string>): (r: seq<string>)
    ensures |r| == |s|
    ensures forall x :: x in r <==> x in s
    ensures StrictlySorted(r)
    decreases |s|
  {
    if s == {} then []
    else
      LeastExists(s);
      AntisymmetricAll();
      var m :| IsLeast(m, s);
      var rest := SortedList(s - {m});
      LeastFirst(m, s, rest);
      [m] + rest
  }

  /** Two strictly sorted lists with the same members are the same list. */
  lemma {:induction false} StrictlySortedUnique(xs: seq<string>, ys: seq<string>)
    requires StrictlySorted(xs) && StrictlySorted(ys)
    requires forall x :: x in xs <==> x in ys
    ensures xs == ys
    decreases |xs|
  {
    assert |xs| == 0 <==> |ys| == 0 by {
      if |xs| > 0 { assert xs[0] in ys; }
      if |ys| > 0 { assert ys[0] in xs; }
    }
    if |xs| > 0 {
      assert xs[0] in ys && ys[0] in xs;
      var i :| 0 <= i < |ys| && ys[i] == xs[0];
      var j :| 0 <= j < |xs| && xs[j] == ys[0];
      assert Below(xs[0], ys[0]) by { if j > 0 { assert Below(xs[0], xs[j]); } else { BelowReflexive(xs[0]); } }
      assert Below(ys[0], xs[0]) by { if i > 0 { assert Below(ys[0], ys[i]); } else { BelowReflexive(ys[0]); } }
      BelowAntisymmetric(xs[0], ys[0]);
      forall x ensures x in xs[1..] <==> x in ys[1..] {
        if x in xs[1..] {
          var k :| 1 <= k < |xs| && xs[k] == x;
          assert x != xs[0];
          assert x in ys;
        }
        if x in ys[1..] {
          var k :| 1 <= k < |ys| && ys[k] == x;
          assert x != ys[0];
          assert x in xs;
        }
      }
      StrictlySortedUnique(xs[1..], ys[1..]);
      assert xs == [xs[0]] + xs[1..] && ys == [ys[0]] + ys[1..];
    }
  }
}
