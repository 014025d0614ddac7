/** The parts of Python's `str` that the filing client relies on:
    find, split(sep), sep.join, count, split() on whitespace, strip,
    lstrip(chars), replace and isalpha.  Strings are sequences of
    characters; indices are Python's, counted from 0. */
module PyStr {
  import opened Results

  /** `p` occurs in `s` starting at position `i`. */
  predicate OccursAt(s: string, p: string, i: int)
  {
    0 <= i && i + |p| <= |s| && s[i..i + |p|] == p
  }

  /** Python's `p in s`. */
  predicate Contains(s: string, p: string)
  {
    exists i :: 0 <= i <= |s| && OccursAt(s, p, i)
  }

  predicate IsPrefix(p: string, s: string)
  {
    |p| <= |s| && s[..|p|] == p
  }

  predicate IsSuffix(p: string, s: string)
  {
    |p| <= |s| && s[|s| - |p|..] == p
  }

  /** `s.find(p, k)`: the first position at or after `k` where `p` occurs. */
  function FindFrom(s: string, p: string, k: nat): (r: Option<nat>)
    decreases |s| - k
    ensures r.Some? ==> k <= r.value && r.value + |p| <= |s|
  {
    if k + |p| > |s| then None
    else if s[k..k + |p|] == p then Some(k)
    else FindFrom(s, p, k + 1)
  }

  /** `s.find(p)`, with None for Python's -1. */
  function Find(s: string, p: string): (r: Option<nat>)
    ensures r.Some? ==> r.value + |p| <= |s|
  {
    FindFrom(s, p, 0)
  }

  /** The search from `k` finds the first occurrence at or after `k`, and
      None only when there is none. */
  lemma {:induction false} FindFromSpec(s: string, p: string, k: nat)
    decreases |s| - k
    ensures var r := FindFrom(s, p, k);
      && (r.Some? ==> OccursAt(s, p, r.value) && forall j :: k <= j < r.value ==> !OccursAt(s, p, j))
      && (r.None? ==> forall j :: k <= j ==> !OccursAt(s, p, j))
  {
    if k + |p| <= |s| && s[k..k + |p|] != p {
      FindFromSpec(s, p, k + 1);
    }
  }

  /** `s.find(p)` answers the first occurrence of `p`, and None exactly
      when `p` does not occur in `s`. */
  lemma FindSpec(s: string, p: string)
    ensures Find(s, p).Some? <==> Contains(s, p)
    ensures Find(s, p).Some? ==>
      OccursAt(s, p, Find(s, p).value) && forall j :: 0 <= j < Find(s, p).value ==> !OccursAt(s, p, j)
  {
    FindFromSpec(s, p, 0);
  }

  /** What a successful search gives without the first-occurrence part. */
  lemma FindSome(s: string, p: string)
    requires Find(s, p).Some?
    ensures OccursAt(s, p, Find(s, p).value) && Contains(s, p)
  {
    FindSpec(s, p);
  }

  /** An occurrence inside a slice is an occurrence in the whole string. */
  lemma ContainsSlice(s: string, p: string, i: int, j: int)
    requires 0 <= i <= j <= |s|
    ensures Contains(s[i..j], p) ==> Contains(s, p)
  {
    if Contains(s[i..j], p) {
      var k :| 0 <= k <= j - i && OccursAt(s[i..j], p, k);
      var a, b := s[i..j][k..k + |p|], s[i + k..i + k + |p|];
      assert forall m :: 0 <= m < |p| ==> a[m] == b[m];
      assert OccursAt(s, p, i + k);
    }
  }

  /** A slice of a string in which `p` does not occur has no `p` either. */
  lemma NotContainsSlice(s: string, p: string, i: int, j: int)
    requires !Contains(s, p) && 0 <= i <= j <= |s|
    ensures !Contains(s[i..j], p)
  {
    ContainsSlice(s, p, i, j);
  }

  lemma PrefixAppend(p: string, s: string, x: string)
    requires IsPrefix(p, s)
    ensures IsPrefix(p, s + x)
  {
    assert (s + x)[..|p|] == s[..|p|];
  }

  lemma SuffixAppend(a: string, b: string)
    ensures IsSuffix(b, a + b)
  {
    assert (a + b)[|a|..] == b;
  }

  lemma SuffixTrans(a: string, b: string, c: string)
    requires IsSuffix(a, b) && IsSuffix(b, c)
    ensures IsSuffix(a, c)
  {
    assert c[|c| - |a|..] == c[|c| - |b|..][|b| - |a|..];
  }

  /** `sep.join(pieces)`. */
  function Join(pieces: seq<string>, sep: string): string
  {
    if |pieces| == 0 then ""
    else if |pieces| == 1 then pieces[0]
    else pieces[0] + sep + Join(pieces[1..], sep)
  }

  /** `s.split(sep)`: the pieces between the occurrences of `sep`, found
      from left to right.  Python raises ValueError for an empty `sep`. */
  function Split(s: string, sep: string): (r: seq<string>)
    requires sep != []
    decreases |s|
    ensures |r| >= 1
  {
    match Find(s, sep)
    case None => [s]
    case Some(i) => [s[..i]] + Split(s[i + |sep|..], sep)
  }

  /** One step of `Split`: the piece before the first `sep`, then the rest. */
  lemma SplitStep(s: string, sep: string, i: nat)
    requires sep != [] && Find(s, sep) == Some(i)
    ensures i + |sep| <= |s|
    ensures Split(s, sep) == [s[..i]] + Split(s[i + |sep|..], sep)
  {
  }

  /** The text before an index below which `sep` does not start has no `sep`. */
  lemma PrefixClean(s: string, sep: string, i: nat)
    requires sep != [] && i <= |s|
    requires forall j :: 0 <= j < i ==> !OccursAt(s, sep, j)
    ensures !Contains(s[..i], sep)
  {
    forall j | 0 <= j <= i && OccursAt(s[..i], sep, j) ensures OccursAt(s, sep, j) {
      assert s[..i][j..j + |sep|] == s[j..j + |sep|];
    }
  }

  /** No piece of `s.split(sep)` holds `sep`. */
  lemma {:induction false} SplitPieces(s: string, sep: string)
    requires sep != []
    decreases |s|
    ensures forall k :: 0 <= k < |Split(s, sep)| ==> !Contains(Split(s, sep)[k], sep)
  {
    FindSpec(s, sep);
    match Find(s, sep)
    case None =>
    case Some(i) =>
      PrefixClean(s, sep, i);
      SplitPieces(s[i + |sep|..], sep);
      var rest := Split(s[i + |sep|..], sep);
      assert forall k :: 1 <= k < |Split(s, sep)| ==> Split(s, sep)[k] == rest[k - 1];
  }

  lemma JoinCons(a: string, r: seq<string>, sep: string)
    requires |r| >= 1
    ensures Join([a] + r, sep) == a + sep + Join(r, sep)
  {
    assert ([a] + r)[1..] == r;
  }

  /** Python's identity `sep.join(s.split(sep)) == s`. */
  lemma {:induction false} SplitJoin(s: string, sep: string)
    requires sep != []
    decreases |s|
    ensures Join(Split(s, sep), sep) == s
  {
    FindSpec(s, sep);
    var f := Find(s, sep);
    if f.Some? {
      var i := f.value;
      var tail := s[i + |sep|..];
      SplitStep(s, sep, i);
      SplitJoin(tail, sep);
      JoinCons(s[..i], Split(tail, sep), sep);
      assert s == s[..i] + sep + tail;
    }
  }

  /** `s.split(sep)[0]`: everything before the first `sep`, or all of `s`. */
  lemma SplitHead(s: string, sep: string)
    requires sep != []
    ensures var h := Split(s, sep)[0];
      && IsPrefix(h, s)
      && !Contains(h, sep)
      && (!Contains(s, sep) ==> h == s)
      && (Contains(s, sep) ==> IsPrefix(h + sep, s) && forall j :: 0 <= j < |h| ==> !OccursAt(s, sep, j))
  {
    FindSpec(s, sep);
    match Find(s, sep)
    case None =>
    case Some(i) =>
      assert Split(s, sep)[0] == s[..i];
      PrefixClean(s, sep, i);
      assert s[..i + |sep|] == s[..i] + sep;
  }

  /** The piece before the first `sep` is followed by `sep` or by the end. */
  lemma SplitHeadRest(s: string, sep: string) returns (u: string)
    requires sep != []
    ensures s == Split(s, sep)[0] + u && (u == [] || IsPrefix(sep, u))
  {
    match Find(s, sep)
    case None =>
      u := [];
      assert s == Split(s, sep)[0] + u;
    case Some(i) =>
      FindSome(s, sep);
      u := s[i..];
      assert Split(s, sep)[0] == s[..i];
      assert s == s[..i] + u;
      assert u[..|sep|] == sep;
  }

  /** `s.split(sep)[-1]`: everything after the last `sep`, or all of `s`. */
  lemma SplitLast(s: string, sep: string)
    requires sep != []
    ensures var r := Split(s, sep); var l := r[|r| - 1];
      && !Contains(l, sep)
      && IsSuffix(l, s)
      && (!Contains(s, sep) ==> l == s)
      && (Contains(s, sep) ==> IsSuffix(sep + l, s))
  {
    FindSpec(s, sep);
    SplitPieces(s, sep);
    LastPiece(s, sep);
    if !Contains(s, sep) {
      assert Split(s, sep) == [s];
    }
  }

  /** `s.split(sep)[-1]`. */
  function LastOf(s: string, sep: string): string
    requires sep != []
  {
    var r := Split(s, sep);
    r[|r| - 1]
  }

  /** The last piece ends `s`, and is all of `s` or follows a `sep`. */
  lemma {:induction false} LastPiece(s: string, sep: string)
    requires sep != []
    decreases |s|
    ensures var l := LastOf(s, sep); IsSuffix(l, s) && (l == s || IsSuffix(sep + l, s))
  {
    match Find(s, sep)
    case None =>
      LastOfNone(s, sep);
      assert s[|s| - |s|..] == s;
    case Some(i) =>
      var t := s[i + |sep|..];
      var m := LastOf(t, sep);
      assert LastOf(s, sep) == m by {
        LastOfStep(s, sep, i);
      }
      assert IsSuffix(m, s) && IsSuffix(sep + m, s) by {
        LastPiece(t, sep);
        FindSome(s, sep);
        SuffixAfter(s, sep, i, m);
      }
  }

  /** Without a `sep` the last piece is all of `s`. */
  lemma LastOfNone(s: string, sep: string)
    requires sep != [] && Find(s, sep).None?
    ensures LastOf(s, sep) == s
  {
    assert Split(s, sep) == [s];
  }

  /** Past the first `sep`, the last piece is that of the rest. */
  lemma LastOfStep(s: string, sep: string, i: nat)
    requires sep != [] && Find(s, sep) == Some(i)
    ensures LastOf(s, sep) == LastOf(s[i + |sep|..], sep)
  {
    SplitStep(s, sep, i);
    LastCons(s[..i], Split(s[i + |sep|..], sep));
  }

  /** The last element of a sequence with one more element in front is its own last element. */
  lemma LastCons<T>(x: T, q: seq<T>)
    requires |q| >= 1
    ensures ([x] + q)[|[x] + q| - 1] == q[|q| - 1]
  {
  }

  /** A suffix of what follows an occurrence of `sep` is a suffix of `s`, and
      so is `sep` followed by it when it is all of that or follows a `sep`. */
  lemma SuffixAfter(s: string, sep: string, i: nat, l: string)
    requires OccursAt(s, sep, i)
    requires IsSuffix(l, s[i + |sep|..])
    requires l == s[i + |sep|..] || IsSuffix(sep + l, s[i + |sep|..])
    ensures IsSuffix(l, s) && IsSuffix(sep + l, s)
  {
    var tail := s[i + |sep|..];
    SuffixDrop(s, i + |sep|);
    SuffixTrans(l, tail, s);
    if l == tail {
      OccurrenceSuffix(s, sep, i);
    } else {
      SuffixTrans(sep + l, tail, s);
    }
  }

  lemma SuffixDrop(s: string, i: nat)
    requires i <= |s|
    ensures IsSuffix(s[i..], s)
  {
  }

  /** An occurrence of `p` at `i` followed by the rest of `s` ends `s`. */
  lemma OccurrenceSuffix(s: string, p: string, i: nat)
    requires OccursAt(s, p, i)
    ensures IsSuffix(p + s[i + |p|..], s)
  {
    assert s[i..] == p + s[i + |p|..];
  }

  /** `s.split(m)[-1].split(e)[0]`: what follows the last `m` in `s`, up
      to the first `e` after it. */
  function AfterLast(s: string, m: string, e: string): string
    requires m != [] && e != []
  {
    var pieces := Split(s, m);
    Split(pieces[|pieces| - 1], e)[0]
  }

  /** The result is a piece of `s`, so it holds nothing `s` does not. */
  lemma AfterLastInside(s: string, m: string, e: string, x: string)
    requires m != [] && e != []
    ensures Contains(AfterLast(s, m, e), x) ==> Contains(s, x)
  {
    var seg := LastOf(s, m);
    var r := Split(seg, e)[0];
    assert AfterLast(s, m, e) == r;
    assert IsPrefix(r, seg) && IsSuffix(seg, s) by {
      LastPiece(s, m);
      HeadPrefix(seg, e);
    }
    InfixInside(r, seg, s, x);
  }

  /** `s.split(sep)[0]` starts `s`. */
  lemma HeadPrefix(s: string, sep: string)
    requires sep != []
    ensures IsPrefix(Split(s, sep)[0], s)
  {
    match Find(s, sep)
    case None =>
    case Some(i) =>
      assert Split(s, sep)[0] == s[..i];
  }

  /** A prefix of a suffix of `s` holds nothing `s` does not. */
  lemma InfixInside(r: string, seg: string, s: string, x: string)
    requires IsPrefix(r, seg) && IsSuffix(seg, s)
    ensures Contains(r, x) ==> Contains(s, x)
  {
    var a := |s| - |seg|;
    assert r == s[a..a + |r|];
    ContainsSlice(s, x, a, a + |r|);
  }

  /** `s.count(p)`: non-overlapping occurrences scanned from the left;
      for an empty `p` Python answers `len(s) + 1`. */
  function Count(s: string, p: string): nat
    decreases |s|
  {
    if |p| == 0 then |s| + 1
    else if |s| < |p| then 0
    else if s[..|p|] == p then 1 + Count(s[|p|..], p)
    else Count(s[1..], p)
  }

  lemma {:induction false} CountSkip(s: string, p: string, i: nat)
    requires p != [] && i <= |s|
    requires forall j :: 0 <= j < i ==> !OccursAt(s, p, j)
    decreases i
    ensures Count(s, p) == Count(s[i..], p)
  {
    if i > 0 {
      assert !OccursAt(s, p, 0);
      if |s| >= |p| {
        forall j | 0 <= j < i - 1 ensures !OccursAt(s[1..], p, j) {
          assert !OccursAt(s, p, j + 1);
          if j + |p| <= |s| - 1 {
            assert s[1..][j..j + |p|] == s[j + 1..j + 1 + |p|];
          }
        }
        CountSkip(s[1..], p, i - 1);
        assert s[1..][i - 1..] == s[i..];
      }
    }
  }

  /** Python's identity `len(s.split(p)) == s.count(p) + 1`. */
  lemma {:induction false} SplitCount(s: string, p: string)
    requires p != []
    decreases |s|
    ensures |Split(s, p)| == Count(s, p) + 1
  {
    FindSpec(s, p);
    match Find(s, p)
    case None =>
      CountSkip(s, p, |s|);
      assert s[|s|..] == "";
    case Some(i) =>
      CountSkip(s, p, i);
      var t := s[i..];
      assert t[..|p|] == p;
      assert t[|p|..] == s[i + |p|..];
      SplitCount(s[i + |p|..], p);
  }

  // ---------------------------------------------------------------- whitespace

  /** Python's `str.isspace` for one character. */
  predicate IsSpace(c: char)
  {
    var n := c as int;
    n == 0x20 || 0x09 <= n <= 0x0D || 0x1C <= n <= 0x1F || n == 0x85 || n == 0xA0
    || n == 0x1680 || 0x2000 <= n <= 0x200A || n == 0x2028 || n == 0x2029
    || n == 0x202F || n == 0x205F || n == 0x3000
  }

  predicate AllSpace(s: string)
  {
    forall i :: 0 <= i < |s| ==> IsSpace(s[i])
  }

  predicate NoSpace(s: string)
  {
    forall i :: 0 <= i < |s| ==> !IsSpace(s[i])
  }

  /** The length of the run of whitespace that starts `s`. */
  function LeadingSpace(s: string): (k: nat)
    ensures k <= |s| && AllSpace(s[..k])
    ensures k < |s| ==> !IsSpace(s[k])
  {
    if s == [] || !IsSpace(s[0]) then 0
    else
      var k := 1 + LeadingSpace(s[1..]);
      assert forall i :: 1 <= i < k ==> s[..k][i] == s[1..][..k - 1][i - 1];
      k
  }

  /** The length of the run of non-whitespace that starts `s`. */
  function WordLength(s: string): (k: nat)
    ensures k <= |s| && NoSpace(s[..k])
    ensures k < |s| ==> IsSpace(s[k])
  {
    if s == [] || IsSpace(s[0]) then 0
    else
      var k := 1 + WordLength(s[1..]);
      assert forall i :: 1 <= i < k ==> s[..k][i] == s[1..][..k - 1][i - 1];
      k
  }

  /** The length of the run of whitespace that ends `s`. */
  function TrailingSpace(s: string): (k: nat)
    ensures k <= |s| && AllSpace(s[|s| - k..])
    ensures k < |s| ==> !IsSpace(s[|s| - k - 1])
  {
    if s == [] || !IsSpace(s[|s| - 1]) then 0
    else
      var k := 1 + TrailingSpace(s[..|s| - 1]);
      DropLast(s, k);
      AllSpaceSnoc(s[..|s| - 1][|s| - k..], s[|s| - 1]);
      k
  }

  /** The last `k` elements are the `k - 1` before the last one, then the last one. */
  lemma DropLast<T>(s: seq<T>, k: nat)
    requires 1 <= k <= |s|
    ensures s[|s| - k..] == s[..|s| - 1][|s| - k..] + [s[|s| - 1]]
  {
  }

  lemma AllSpaceSnoc(a: string, c: char)
    requires AllSpace(a) && IsSpace(c)
    ensures AllSpace(a + [c])
  {
  }

  /** `s.split()` with no argument: the maximal runs of non-whitespace. */
  function Words(s: string): (w: seq<string>)
    decreases |s|
    ensures forall i :: 0 <= i < |w| ==> w[i] != [] && NoSpace(w[i])
  {
    var t := s[LeadingSpace(s)..];
    if t == [] then []
    else
      var k := WordLength(t);
      [t[..k]] + Words(t[k..])
  }

  /** `s.split()` is empty exactly when `s` is all whitespace. */
  lemma WordsEmpty(s: string)
    ensures Words(s) == [] <==> AllSpace(s)
  {
    var k := LeadingSpace(s);
    if k == |s| {
      assert s[..k] == s;
    } else {
      assert !IsSpace(s[k]);
      assert s[LeadingSpace(s)..] != [];
    }
  }

  /** `s.split()[0]` is the first maximal run of non-whitespace of `s`:
      only whitespace `ws` before it, whitespace or the end after it. */
  lemma FirstWord(s: string) returns (ws: string, t: string)
    requires Words(s) != []
    ensures s == ws + Words(s)[0] + t
    ensures AllSpace(ws) && (t == [] || IsSpace(t[0]))
  {
    var n := LeadingSpace(s);
    var u := s[n..];
    var k := WordLength(u);
    WordsHead(s);
    ws, t := s[..n], u[k..];
    HeadParts(s, n, k);
    assert t != [] ==> t[0] == u[k];
  }

  /** The first word is the run of non-whitespace after the leading whitespace. */
  lemma WordsHead(s: string)
    requires Words(s) != []
    ensures var u := s[LeadingSpace(s)..]; Words(s)[0] == u[..WordLength(u)]
  {
  }

  /** Conversely, whitespace, a word and then whitespace or the end make a
      string whose first word is that word. */
  lemma FirstWordOf(ws: string, w: string, t: string)
    requires AllSpace(ws) && w != [] && NoSpace(w) && (t == [] || IsSpace(t[0]))
    ensures Words(ws + w + t) != [] && Words(ws + w + t)[0] == w
  {
    var s := ws + w + t;
    assert s == ws + (w + t);
    LeadingSpaceOf(ws, w + t);
    assert s[|ws|..] == w + t;
    WordLengthOf(w, t);
    assert (w + t)[..|w|] == w;
  }

  lemma {:induction false} LeadingSpaceOf(ws: string, r: string)
    requires AllSpace(ws) && (r == [] || !IsSpace(r[0]))
    ensures LeadingSpace(ws + r) == |ws|
  {
    if ws != [] {
      assert (ws + r)[1..] == ws[1..] + r;
      LeadingSpaceOf(ws[1..], r);
    } else {
      assert ws + r == r;
    }
  }

  lemma {:induction false} WordLengthOf(w: string, t: string)
    requires NoSpace(w) && (t == [] || IsSpace(t[0]))
    ensures WordLength(w + t) == |w|
  {
    if w != [] {
      assert (w + t)[1..] == w[1..] + t;
      WordLengthOf(w[1..], t);
    } else {
      assert w + t == t;
    }
  }

  /** `s` cut at `n` and again `k` elements further. */
  lemma HeadParts<T>(s: seq<T>, n: nat, k: nat)
    requires n <= |s| && k <= |s| - n
    ensures s == s[..n] + s[n..][..k] + s[n..][k..]
  {
    assert s[n..] == s[n..][..k] + s[n..][k..];
  }

  /** `s.strip()`: `s` without its leading and trailing whitespace. */
  function Strip(s: string): (r: string)
    ensures r == [] || (!IsSpace(r[0]) && !IsSpace(r[|r| - 1]))
  {
    var a := LeadingSpace(s);
    var u := s[a..];
    var b := TrailingSpace(u);
    var r := u[..|u| - b];
    assert r != [] ==> r[0] == s[a] && r[|r| - 1] == u[|u| - b - 1];
    r
  }

  /** What `strip` takes off is whitespace on both sides. */
  lemma StripParts(s: string) returns (a: string, b: string)
    ensures s == a + Strip(s) + b && AllSpace(a) && AllSpace(b)
  {
    var n := LeadingSpace(s);
    var u := s[n..];
    var m := TrailingSpace(u);
    a, b := s[..n], u[|u| - m..];
    StripMiddle(s, n, m);
    ThreeParts(s, n, m);
  }

  lemma StripMiddle(s: string, n: nat, m: nat)
    requires n == LeadingSpace(s) && m == TrailingSpace(s[n..])
    ensures Strip(s) == s[n..][..|s[n..]| - m]
  {
  }

  /** `s` cut at `n` and again `m` elements before its end. */
  lemma ThreeParts<T>(s: seq<T>, n: nat, m: nat)
    requires n <= |s| && m <= |s[n..]|
    ensures s == s[..n] + s[n..][..|s[n..]| - m] + s[n..][|s[n..]| - m..]
  {
    assert s[n..] == s[n..][..|s[n..]| - m] + s[n..][|s[n..]| - m..];
  }

  /** Stripping a string that has no whitespace leaves it as it is. */
  lemma StripWord(s: string)
    requires NoSpace(s)
    ensures Strip(s) == s
  {
    if s != [] {
      assert !IsSpace(s[0]);
      assert LeadingSpace(s) == 0;
      assert !IsSpace(s[|s| - 1]);
      assert TrailingSpace(s) == 0;
    }
  }

  // ---------------------------------------------------------------- other methods

  /** `s.lstrip(chars)`: `s` without its leading run of characters in `chars`. */
  function LStrip(s: string, chars: string): (r: string)
    ensures IsSuffix(r, s)
    ensures forall i :: 0 <= i < |s| - |r| ==> s[i] in chars
    ensures r == [] || r[0] !in chars
  {
    if s != [] && s[0] in chars then
      var r := LStrip(s[1..], chars);
      assert s[|s| - |r|..] == s[1..][|s| - 1 - |r|..];
      r
    else s
  }

  /** `s.replace(pat, repl)`: every occurrence found from the left is replaced. */
  function Replace(s: string, pat: string, repl: string): string
    requires pat != []
  {
    Join(Split(s, pat), repl)
  }

  /** `s` with every `c` taken out. */
  function Without(s: string, c: char): (r: string)
    ensures forall i :: 0 <= i < |r| ==> r[i] != c
    ensures |r| <= |s|
  {
    if s == [] then s
    else if s[0] == c then Without(s[1..], c) else [s[0]] + Without(s[1..], c)
  }

  lemma WithoutConcat(a: string, b: string, c: char)
    ensures Without(a + b, c) == Without(a, c) + Without(b, c)
  {
    if a == [] {
      assert a + b == b;
    } else {
      assert (a + b)[0] == a[0];
      assert (a + b)[1..] == a[1..] + b;
      WithoutConcat(a[1..], b, c);
    }
  }

  lemma WithoutAbsent(a: string, c: char)
    requires forall i :: 0 <= i < |a| ==> a[i] != c
    ensures Without(a, c) == a
  {
    if a != [] {
      WithoutAbsent(a[1..], c);
    }
  }

  /** `s.split(sep)` has a second piece exactly when `sep` occurs in `s`. */
  lemma SplitSeveral(s: string, sep: string)
    requires sep != []
    ensures |Split(s, sep)| >= 2 <==> Contains(s, sep)
  {
    FindSpec(s, sep);
    match Find(s, sep)
    case None =>
    case Some(i) => SplitStep(s, sep, i);
  }

  /** With a separator present, `s` is its first piece, the separator,
      its second piece, and then nothing or the separator again. */
  lemma SecondPiece(s: string, sep: string) returns (u: string)
    requires sep != [] && Contains(s, sep)
    ensures |Split(s, sep)| >= 2
    ensures s == Split(s, sep)[0] + sep + Split(s, sep)[1] + u && (u == [] || IsPrefix(sep, u))
  {
    assert Find(s, sep).Some? by {
      FindSpec(s, sep);
    }
    var i := Find(s, sep).value;
    var rest := s[i + |sep|..];
    var h := Split(rest, sep)[0];
    assert |Split(s, sep)| >= 2 && Split(s, sep)[0] == s[..i] && Split(s, sep)[1] == h by {
      SplitStep(s, sep, i);
    }
    assert s == s[..i] + sep + rest by {
      FindSome(s, sep);
      Around(s, i, |sep|);
    }
    u := SplitHeadRest(rest, sep);
    Glue4(s, s[..i], sep, rest, h, u);
  }

  /** `s` around its slice of length `n` at `i`. */
  lemma Around<T>(s: seq<T>, i: nat, n: nat)
    requires i + n <= |s|
    ensures s == s[..i] + s[i..i + n] + s[i + n..]
  {
  }

  /** Concatenation is associative: splitting the last part `c` into `h + u` keeps `s`. */
  lemma Glue4<T>(s: seq<T>, a: seq<T>, b: seq<T>, c: seq<T>, h: seq<T>, u: seq<T>)
    requires s == a + b + c && c == h + u
    ensures s == a + b + h + u
  {
  }

  /** `s.split(sep)[1].split()[0]`, when there is one, is a word of the
      second piece: after the first piece and the separator come only
      whitespace and then the word, followed by whitespace, by the
      separator or by nothing. */
  lemma WordAfter(s: string, sep: string) returns (ws: string, t: string)
    requires sep != [] && Contains(s, sep)
    requires |Split(s, sep)| >= 2 && Words(Split(s, sep)[1]) != []
    ensures !Contains(Words(Split(s, sep)[1])[0], sep)
    ensures s == Split(s, sep)[0] + sep + ws + Words(Split(s, sep)[1])[0] + t
    ensures AllSpace(ws) && (t == [] || IsSpace(t[0]) || IsPrefix(sep, t))
  {
    var f := Split(s, sep)[0];
    var h := Split(s, sep)[1];
    var a := Words(h)[0];
    SplitPieces(s, sep);
    var w, t0 := FirstWord(h);
    var u := SecondPiece(s, sep);
    Glue(s, f, sep, h, u, w, a, t0);
    InfixClean(h, sep, w, a, t0);
    ws, t := w, t0 + u;
  }

  /** Regrouping `f + sep + (ws + a + t0) + u` so that the word `a` is followed by `t0 + u`. */
  lemma Glue<T>(s: seq<T>, f: seq<T>, sep: seq<T>, h: seq<T>, u: seq<T>, ws: seq<T>, a: seq<T>, t0: seq<T>)
    requires s == f + sep + h + u && h == ws + a + t0
    ensures s == f + sep + ws + a + (t0 + u)
    ensures t0 != [] ==> (t0 + u)[0] == t0[0]
    ensures t0 == [] ==> t0 + u == u
  {
  }

  /** A piece of a string without `p` has no `p` either. */
  lemma InfixClean(h: string, p: string, ws: string, a: string, t: string)
    requires h == ws + a + t && !Contains(h, p)
    ensures !Contains(a, p)
  {
    assert a == h[|ws|..|ws| + |a|];
    NotContainsSlice(h, p, |ws|, |ws| + |a|);
  }

  lemma CharAbsent(s: string, c: char)
    requires Find(s, [c]).None?
    ensures forall i :: 0 <= i < |s| ==> s[i] != c
  {
    FindSpec(s, [c]);
    forall i | 0 <= i < |s| ensures s[i] != c {
      assert s[i..i + 1] == [s[i]];
      assert !OccursAt(s, [c], i);
    }
  }

  /** The part of `s` before the first `c` has no `c`. */
  lemma BeforeFirst(s: string, c: char, i: nat)
    requires Find(s, [c]) == Some(i)
    ensures forall j :: 0 <= j < |s[..i]| ==> s[..i][j] != c
  {
    FindSpec(s, [c]);
    forall j | 0 <= j < i ensures s[j] != c {
      assert !OccursAt(s, [c], j);
      assert s[j..j + 1] == [s[j]];
    }
  }

  /** Replacing a single character by the empty string takes every
      occurrence of it out and keeps everything else, in order. */
  lemma {:induction false} ReplaceByNothing(s: string, c: char)
    decreases |s|
    ensures Replace(s, [c], "") == Without(s, c)
  {
    FindSpec(s, [c]);
    var f := Find(s, [c]);
    if f.None? {
      CharAbsent(s, c);
      WithoutAbsent(s, c);
    } else {
      var i := f.value;
      var head, tail := s[..i], s[i + 1..];
      var rest := Split(tail, [c]);
      SplitStep(s, [c], i);
      JoinCons(head, rest, "");
      assert head + "" == head;
      assert Replace(s, [c], "") == head + Replace(tail, [c], "");
      ReplaceByNothing(tail, c);
      BeforeFirst(s, c, i);
      WithoutAbsent(head, c);
      CharThenRest(s, c, i);
      WithoutConcat(head, [c] + tail, c);
      assert Without([c] + tail, c) == Without(tail, c) by {
        assert ([c] + tail)[1..] == tail;
      }
    }
  }

  lemma CharThenRest(s: string, c: char, i: nat)
    requires Find(s, [c]) == Some(i)
    ensures s == s[..i] + ([c] + s[i + 1..])
  {
    FindSpec(s, [c]);
    assert s[i..i + 1] == [c];
    assert s[i] == c;
  }

  /** Python's `str.isalpha`: at least one character, and all letters.
      Only the ASCII letters are modelled. */
  predicate IsLetter(c: char)
  {
    'A' <= c <= 'Z' || 'a' <= c <= 'z'
  }

  predicate IsAlpha(s: string)
  {
    |s| > 0 && forall i :: 0 <= i < |s| ==> IsLetter(s[i])
  }

  /** A numeric CIK, or any text with a digit or a space in it, is not a
      ticker, and neither is the empty string; any run of letters is. */
  lemma IsAlphaCheck(s: string, c: char)
    ensures (exists i :: 0 <= i < |s| && ('0' <= s[i] <= '9' || IsSpace(s[i]))) ==> !IsAlpha(s)
    ensures !IsAlpha([])
    ensures IsAlpha(s) && IsLetter(c) ==> IsAlpha(s + [c]) && IsAlpha([c] + s)
  {
    if IsAlpha(s) && IsLetter(c) {
      assert forall i :: 0 <= i < |s| ==> (s + [c])[i] == s[i];
      assert forall i :: 1 <= i <= |s| ==> ([c] + s)[i] == s[i - 1];
    }
  }
}
