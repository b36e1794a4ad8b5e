/** String helpers with Python's semantics: str.isspace, str.strip,
    str.split with an explicit separator, and the code-point order that
    sorted() uses on strings. */
module Strings {

  /** Python's str.isspace() on one character; Python's `re` module uses the
      same test for `\s` in a str pattern. */
  predicate IsSpace(c: char) {
    c == ' ' || '\t' <= c <= '\r' || '\U{1C}' <= c <= '\U{1F}'
    || c == '\U{85}' || c == '\U{A0}' || c == '\U{1680}'
    || '\U{2000}' <= c <= '\U{200A}' || c == '\U{2028}' || c == '\U{2029}'
    || c == '\U{202F}' || c == '\U{205F}' || c == '\U{3000}'
  }

  predicate AllSpace(s: string) {
    forall i :: 0 <= i < |s| ==> IsSpace(s[i])
  }

  /** str.lstrip(): drops the whitespace prefix. */
  function LStrip(s: string): (r: string)
    ensures |r| <= |s| && r == s[|s| - |r|..]
    ensures r == [] || !IsSpace(r[0])
  {
    if s != [] && IsSpace(s[0]) then LStrip(s[1..]) else s
  }

  /** What lstrip() drops is whitespace. */
  lemma {:induction false} LStripDropsSpace(s: string)
    ensures AllSpace(s[..|s| - |LStrip(s)|])
  {
    if s != [] && IsSpace(s[0]) {
      LStripDropsSpace(s[1..]);
      var k := |s| - |LStrip(s)|;
      assert forall i :: 1 <= i < k ==> s[i] == s[1..][i - 1];
    }
  }

  /** str.rstrip(): drops the whitespace suffix. */
  function RStrip(s: string): (r: string)
    ensures |r| <= |s| && r == s[..|r|]
    ensures r == [] || !IsSpace(r[|r| - 1])
  {
    if s != [] && IsSpace(s[|s| - 1]) then RStrip(s[..|s| - 1]) else s
  }

  /** What rstrip() drops is whitespace. */
  lemma {:induction false} RStripDropsSpace(s: string)
    ensures AllSpace(s[|RStrip(s)|..])
  {
    if s != [] && IsSpace(s[|s| - 1]) {
      RStripDropsSpace(s[..|s| - 1]);
      var k := |RStrip(s)|;
      assert forall i :: k <= i < |s| - 1 ==> s[i] == s[..|s| - 1][i];
    }
  }

  /** str.strip(): the infix of `s` left once whitespace is removed at both ends. */
  function Strip(s: string): (r: string)
    ensures r == [] || (!IsSpace(r[0]) && !IsSpace(r[|r| - 1]))
    ensures r == [] <==> AllSpace(s)
  {
    StripEnds(s);
    StripBlank(s);
    RStrip(LStrip(s))
  }

  lemma StripEnds(s: string)
    ensures var r := RStrip(LStrip(s)); r == [] || (!IsSpace(r[0]) && !IsSpace(r[|r| - 1]))
  {
    var l := LStrip(s);
    var r := RStrip(l);
    assert r != [] ==> r[0] == l[0];
  }

  lemma StripBlank(s: string)
    ensures RStrip(LStrip(s)) == [] <==> AllSpace(s)
  {
    var l := LStrip(s);
    var k := |s| - |l|;
    LStripDropsSpace(s);
    RStripDropsSpace(l);
    if RStrip(l) == [] {
      assert l[0..] == l;
      assert s == s[..k] + l;
      AllSpaceConcat(s[..k], l);
    }
    if l != [] {
      assert l[0] == s[k] && !IsSpace(l[0]);
      assert !AllSpace(s);
    }
  }

  /** strip() removes whitespace only: `s` is the stripped text with a
      whitespace run before and after it. */
  lemma StripInfix(s: string)
    ensures exists lead, trail :: s == lead + Strip(s) + trail && AllSpace(lead) && AllSpace(trail)
  {
    var l := LStrip(s);
    var r := RStrip(l);
    var k := |s| - |l|;
    LStripDropsSpace(s);
    RStripDropsSpace(l);
    var lead, trail := s[..k], l[|r|..];
    TakeDrop(s, k);
    TakeDrop(l, |r|);
    assert Strip(s) == r;
    assert s == lead + r + trail by {
      assert lead + (r + trail) == lead + r + trail;
    }
    assert AllSpace(lead) && AllSpace(trail);
  }

  lemma TakeDrop(s: string, k: nat)
    requires k <= |s|
    ensures s == s[..k] + s[k..]
  {
  }

  lemma AllSpaceConcat(a: string, b: string)
    ensures AllSpace(a + b) <==> AllSpace(a) && AllSpace(b)
  {
    var ab := a + b;
    if AllSpace(ab) {
      forall i | 0 <= i < |a| ensures IsSpace(a[i]) { assert a[i] == ab[i]; }
      forall i | 0 <= i < |b| ensures IsSpace(b[i]) { assert b[i] == ab[|a| + i]; }
    }
    if AllSpace(a) && AllSpace(b) {
      forall i | 0 <= i < |ab| ensures IsSpace(ab[i]) {
        if i < |a| { assert ab[i] == a[i]; } else { assert ab[i] == b[i - |a|]; }
      }
    }
  }

  /** A string with no whitespace at either end is its own strip. */
  lemma StripTrimmed(s: string)
    requires s == [] || (!IsSpace(s[0]) && !IsSpace(s[|s| - 1]))
    ensures Strip(s) == s
  {
  }

  /** Stripping twice is the same as stripping once. */
  lemma StripIdempotent(s: string)
    ensures Strip(Strip(s)) == Strip(s)
  {
    StripTrimmed(Strip(s));
  }

  /** Whitespace in front of a text does not change its lstrip(). */
  lemma {:induction false} LStripPad(w: string, s: string)
    requires AllSpace(w)
    ensures LStrip(w + s) == LStrip(s)
    decreases |w|
  {
    if w == [] {
      assert w + s == s;
    } else {
      assert (w + s)[1..] == w[1..] + s;
      LStripPad(w[1..], s);
    }
  }

  /** Text after a text that is not all whitespace survives lstrip(). */
  lemma {:induction false} LStripAppend(s: string, v: string)
    requires LStrip(s) != []
    ensures LStrip(s + v) == LStrip(s) + v
    decreases |s|
  {
    var sv := s + v;
    assert sv[0] == s[0];
    if IsSpace(s[0]) {
      var t := s[1..];
      assert LStrip(s) == LStrip(t);
      assert sv[1..] == t + v;
      LStripAppend(t, v);
    }
  }

  /** Whitespace after a text does not change its rstrip(). */
  lemma {:induction false} RStripPad(s: string, v: string)
    requires AllSpace(v)
    ensures RStrip(s + v) == RStrip(s)
    decreases |v|
  {
    if v == [] {
      assert s + v == s;
    } else {
      var sv := s + v;
      assert sv[..|sv| - 1] == s + v[..|v| - 1];
      assert IsSpace(sv[|sv| - 1]);
      RStripPad(s, v[..|v| - 1]);
    }
  }

  /** Whitespace around a text does not change its strip(). */
  lemma StripPad(w: string, s: string, v: string)
    requires AllSpace(w) && AllSpace(v)
    ensures Strip(w + s + v) == Strip(s)
  {
    var x := w + s + v;
    assert x == w + (s + v);
    LStripPad(w, s + v);
    assert LStrip(x) == LStrip(s + v);
    if LStrip(s) != [] {
      LStripAppend(s, v);
      RStripPad(LStrip(s), v);
      assert Strip(x) == RStrip(LStrip(s) + v);
    } else {
      assert Strip(s) == [];
      AllSpaceConcat(w, s);
      AllSpaceConcat(w + s, v);
      assert AllSpace(x);
    }
  }

  /** Index of the first `c` in `s`, or |s| when there is none. */
  function IndexOf(s: string, c: char): (i: nat)
    ensures i <= |s| && (i < |s| ==> s[i] == c) && c !in s[..i]
  {
    if s == [] || s[0] == c then 0 else 1 + IndexOf(s[1..], c)
  }

  /** str.split(sep) for a one-character separator: always at least one
      piece, and no piece contains the separator. */
  function Split(s: string, sep: char): (parts: seq<string>)
    ensures |parts| >= 1
    decreases |s|
  {
    var i := IndexOf(s, sep);
    if i == |s| then [s]
    else [s[..i]] + Split(s[i + 1..], sep)
  }

  /** IndexOf is the only index before which `c` does not occur and at
      which `c` (or the end) stands. */
  lemma IndexOfUnique(s: string, c: char, j: nat)
    requires j <= |s| && (j < |s| ==> s[j] == c) && c !in s[..j]
    ensures IndexOf(s, c) == j
  {
  }

  /** A prefix without `c` shifts the index of `c` by its length. */
  lemma IndexOfSkip(w: string, s: string, c: char)
    requires c !in w
    ensures IndexOf(w + s, c) == |w| + IndexOf(s, c)
  {
    var i := IndexOf(s, c);
    var ws := w + s;
    assert ws[..|w| + i] == w + s[..i];
    IndexOfUnique(ws, c, |w| + i);
  }

  /** Text appended after the first `c` does not move it, and text without
      `c` appended to a text without `c` leaves none. */
  lemma IndexOfAppend(s: string, v: string, c: char)
    requires IndexOf(s, c) < |s| || c !in v
    ensures IndexOf(s + v, c) == if IndexOf(s, c) < |s| then IndexOf(s, c) else |s + v|
  {
    var i := IndexOf(s, c);
    var sv := s + v;
    if i < |s| {
      assert sv[..i] == s[..i] && sv[i] == s[i];
      IndexOfUnique(sv, c, i);
    } else {
      assert s[..i] == s && sv[..|sv|] == sv;
      IndexOfUnique(sv, c, |sv|);
    }
  }

  /** A separator-free prefix joins the first piece. */
  lemma SplitPadLeft(w: string, s: string, sep: char)
    requires sep !in w
    ensures Split(w + s, sep) == [w + Split(s, sep)[0]] + Split(s, sep)[1..]
  {
    var i := IndexOf(s, sep);
    var ws := w + s;
    IndexOfSkip(w, s, sep);
    if i < |s| {
      assert ws[..|w| + i] == w + s[..i];
      assert ws[|w| + i + 1..] == s[i + 1..];
    }
  }

  /** A separator-free suffix joins the last piece. */
  lemma {:induction false} SplitPadRight(s: string, v: string, sep: char)
    requires sep !in v
    ensures var p := Split(s, sep);
            Split(s + v, sep) == p[..|p| - 1] + [p[|p| - 1] + v]
    decreases |s|
  {
    var i := IndexOf(s, sep);
    IndexOfAppend(s, v, sep);
    if i < |s| {
      var rest := s[i + 1..];
      SplitStep(s, v, sep);
      SplitPadRight(rest, v, sep);
      ConsLast([s[..i]], Split(rest, sep), v);
    }
  }

  /** One step of splitting `s + v` past a separator inside `s`. */
  lemma SplitStep(s: string, v: string, sep: char)
    requires IndexOf(s, sep) < |s| && IndexOf(s + v, sep) == IndexOf(s, sep)
    ensures var i := IndexOf(s, sep);
            && Split(s + v, sep) == [s[..i]] + Split(s[i + 1..] + v, sep)
            && Split(s, sep) == [s[..i]] + Split(s[i + 1..], sep)
  {
    var i := IndexOf(s, sep);
    var sv := s + v;
    assert sv[..i] == s[..i];
    assert sv[i + 1..] == s[i + 1..] + v;
  }

  /** Separator-free text on both sides of a split text joins its first and
      last pieces. */
  lemma SplitPadBoth(w: string, s: string, v: string, sep: char, k: nat)
    requires sep !in w && sep !in v
    requires k < |Split(s, sep)|
    ensures |Split(w + s + v, sep)| == |Split(s, sep)|
    ensures Split(w + s + v, sep)[k]
            == (if k == 0 then w else []) + Split(s, sep)[k] + (if k == |Split(s, sep)| - 1 then v else [])
  {
    var p := Split(s, sep);
    var l := Split(w + s, sep);
    var r := Split(w + s + v, sep);
    SplitPadLeft(w, s, sep);
    SplitPadRight(w + s, v, sep);
    var n := |p|;
    assert |l| == n && |r| == n;
    var a := if k == 0 then w else [];
    assert l[k] == a + p[k];
    if k < n - 1 {
      assert r[k] == l[k];
      assert a + p[k] == a + p[k] + [];
    } else {
      assert r[k] == l[k] + v;
    }
  }

  lemma ConsLast(a: seq<string>, q: seq<string>, v: string)
    requires |q| >= 1
    ensures var p := a + q;
            a + (q[..|q| - 1] + [q[|q| - 1] + v]) == p[..|p| - 1] + [p[|p| - 1] + v]
  {
    var p := a + q;
    assert p[..|p| - 1] == a + q[..|q| - 1];
  }

  /** No piece holds the separator, and every character of a piece comes
      from the text that was split. */
  lemma {:induction false} SplitPieces(s: string, sep: char)
    ensures forall k :: 0 <= k < |Split(s, sep)| ==> sep !in Split(s, sep)[k]
    ensures forall k, c :: 0 <= k < |Split(s, sep)| && c in Split(s, sep)[k] ==> c in s
    decreases |s|
  {
    var i := IndexOf(s, sep);
    var parts := Split(s, sep);
    if i < |s| {
      var rest := s[i + 1..];
      SplitPieces(rest, sep);
      assert parts == [s[..i]] + Split(rest, sep);
      forall k | 0 <= k < |parts| ensures sep !in parts[k] {
        if k > 0 {
          assert parts[k] == Split(rest, sep)[k - 1];
        }
      }
      forall k, c | 0 <= k < |parts| && c in parts[k] ensures c in s {
        if k == 0 {
          assert c in s[..i];
        } else {
          assert c in Split(rest, sep)[k - 1];
          assert c in rest;
        }
      }
    } else {
      assert parts == [s];
    }
  }

  /** sep.join(parts), the inverse of Split. */
  function Join(parts: seq<string>, sep: char): string
  {
    if parts == [] then []
    else if |parts| == 1 then parts[0]
    else parts[0] + [sep] + Join(parts[1..], sep)
  }

  /** Joining the pieces of a split gives back the original text. */
  lemma {:induction false} JoinSplit(s: string, sep: char)
    ensures Join(Split(s, sep), sep) == s
    decreases |s|
  {
    var i := IndexOf(s, sep);
    if i < |s| {
      var rest := s[i + 1..];
      JoinSplit(rest, sep);
      var parts := Split(s, sep);
      assert parts == [s[..i]] + Split(rest, sep);
      assert parts[1..] == Split(rest, sep);
      assert Join(parts, sep) == s[..i] + [sep] + Join(Split(rest, sep), sep);
      assert s == s[..i] + [sep] + rest;
    }
  }

  /** A separator-free piece, the separator and the rest split as the
      piece followed by the pieces of the rest. */
  lemma SplitCons(a: string, sep: char, b: string)
    requires sep !in a
    ensures Split(a + [sep] + b, sep) == [a] + Split(b, sep)
  {
    var s := a + [sep] + b;
    assert s[|a|] == sep;
    assert IndexOf(s, sep) == |a|;
    assert s[..|a|] == a;
    assert s[|a| + 1..] == b;
  }

  /** Splitting the join of separator-free pieces gives back the pieces. */
  lemma {:induction false} SplitJoin(parts: seq<string>, sep: char)
    requires |parts| >= 1
    requires forall k :: 0 <= k < |parts| ==> sep !in parts[k]
    ensures Split(Join(parts, sep), sep) == parts
  {
    if |parts| > 1 {
      SplitCons(parts[0], sep, Join(parts[1..], sep));
      SplitJoin(parts[1..], sep);
      assert parts == [parts[0]] + parts[1..];
    }
  }

  /** Python's `<` on str: lexicographic comparison of code points, where a
      proper prefix comes first. */
  predicate LexLess(a: string, b: string)
    decreases |a|
  {
    if a == [] then b != []
    else if b == [] then false
    else if a[0] != b[0] then a[0] < b[0]
    else LexLess(a[1..], b[1..])
  }

  lemma {:induction false} LexIrreflexive(a: string)
    ensures !LexLess(a, a)
    decreases |a|
  {
    if a != [] { LexIrreflexive(a[1..]); }
  }

  lemma {:induction false} LexTransitive(a: string, b: string, c: string)
    requires LexLess(a, b) && LexLess(b, c)
    ensures LexLess(a, c)
    decreases |a|
  {
    if a != [] && b != [] && c != [] && a[0] == b[0] && b[0] == c[0] {
      LexTransitive(a[1..], b[1..], c[1..]);
    }
  }

  lemma {:induction false} LexTotal(a: string, b: string)
    ensures a == b || LexLess(a, b) || LexLess(b, a)
    decreases |a|
  {
    if a != [] && b != [] && a[0] == b[0] {
      LexTotal(a[1..], b[1..]);
      if a[1..] == b[1..] {
        assert a == [a[0]] + a[1..] && b == [b[0]] + b[1..];
      }
    }
  }

  lemma LexAsymmetric(a: string, b: string)
    ensures !(LexLess(a, b) && LexLess(b, a))
  {
    if LexLess(a, b) && LexLess(b, a) {
      LexTransitive(a, b, a);
      LexIrreflexive(a);
    }
  }

  predicate StrictlyIncreasing(r: seq<string>) {
    forall i, j :: 0 <= i < j < |r| ==> LexLess(r[i], r[j])
  }

  predicate IsLeast(m: string, s: set<string>) {
    m in s && forall y :: y in s && y != m ==> LexLess(m, y)
  }

  /** Every non-empty finite set of strings has a least element. */
  lemma {:induction false} LeastExists(s: set<string>)
    requires s != {}
    ensures exists m :: IsLeast(m, s)
    decreases |s|
  {
    var x :| x in s;
    if s != {x} {
      var rest := s - {x};
      LeastExists(rest);
      var m :| IsLeast(m, rest);
      LexTotal(x, m);
      if LexLess(x, m) {
        forall y | y in s && y != x ensures LexLess(x, y) {
          if y != m { LexTransitive(x, m, y); }
        }
        assert IsLeast(x, s);
      } else {
        assert IsLeast(m, s);
      }
    } else {
      assert IsLeast(x, s);
    }
  }

  lemma LeastUnique(s: set<string>)
    ensures forall m, m' :: IsLeast(m, s) && IsLeast(m', s) ==> m == m'
  {
    forall m, m' | IsLeast(m, s) && IsLeast(m', s) ensures m == m' {
      LexAsymmetric(m, m');
    }
  }

  /** sorted(list(s)): the elements of `s`, each once, in ascending order. */
  function SortedList(s: set<string>): (r: seq<string>)
    ensures |r| == |s|
    ensures forall x :: x in r <==> x in s
    ensures StrictlyIncreasing(r)
    decreases |s|
  {
    if s == {} then []
    else
      LeastExists(s);
      LeastUnique(s);
      var m :| IsLeast(m, s);
      [m] + SortedList(s - {m})
  }

  /** The ascending listing of a set is unique: any strictly increasing
      sequence holding exactly the elements of `s` is SortedList(s). */
  lemma {:induction false} SortedListUnique(s: set<string>, r: seq<string>)
    requires StrictlyIncreasing(r)
    requires forall x :: x in r <==> x in s
    ensures r == SortedList(s)
    decreases |r|
  {
    if r == [] {
      assert s == {};
    } else {
      var m := r[0];
      assert IsLeast(m, s) by {
        forall y | y in s && y != m ensures LexLess(m, y) {
          var j :| 0 <= j < |r| && r[j] == y;
        }
      }
      LeastUnique(s);
      var tail := r[1..];
      assert m !in tail by {
        if m in tail {
          var j :| 0 <= j < |tail| && tail[j] == m;
          assert LexLess(r[0], r[j + 1]);
          LexIrreflexive(m);
        }
      }
      assert forall x :: x in tail <==> x in s - {m} by {
        assert r == [m] + tail;
      }
      SortedListUnique(s - {m}, tail);
    }
  }
}
