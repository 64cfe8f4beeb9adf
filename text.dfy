/**
 * The pieces of `std::string` that the blueprint loader uses, over `string` (= `seq<char>`).
 * A search that fails yields `None`, which plays the role of `std::string::npos`.
 */
module Text {
  import opened Wrappers

  /** `s.find(c, from)`: the first position at or after `from` that holds `c`. */
  function FindChar(s: string, c: char, from: nat): (r: Option<nat>)
    ensures r.Some? ==> from <= r.value < |s| && s[r.value] == c
    decreases |s| - from
  {
    if from >= |s| then None
    else if s[from] == c then Some(from)
    else FindChar(s, c, from + 1)
  }

  /** No position between `from` and the result (or the end, when nothing is found) holds `c`. */
  lemma {:induction false} FindCharFirst(s: string, c: char, from: nat)
    ensures forall i :: from <= i < |s| && (FindChar(s, c, from).None? || i < FindChar(s, c, from).value) ==> s[i] != c
    decreases |s| - from
  {
    if from < |s| && s[from] != c {
      FindCharFirst(s, c, from + 1);
    }
  }

  /** A search that finds nothing finds nothing from any later position either. */
  lemma {:induction false} FindCharNoneLater(s: string, c: char, from: nat, later: nat)
    requires from <= later && FindChar(s, c, from) == None
    ensures FindChar(s, c, later) == None
    decreases later - from
  {
    if from < later {
      FindCharNoneLater(s, c, from + 1, later);
    }
  }

  /** `s.find(c, from)` where `from` may itself be `npos`: searching from `npos` finds nothing. */
  function FindCharFrom(s: string, c: char, from: Option<nat>): (r: Option<nat>)
  {
    if from.None? then None else FindChar(s, c, from.value)
  }

  /** `p` occurs in `s` starting at position `i`. */
  predicate OccursAt(s: string, p: string, i: nat)
  {
    i + |p| <= |s| && s[i..i + |p|] == p
  }

  /** `s.find(p, from)`: the first position at or after `from` where `p` occurs. */
  function FindStr(s: string, p: string, from: nat): (r: Option<nat>)
    ensures r.Some? ==> from <= r.value && r.value + |p| <= |s|
    decreases |s| - from
  {
    if from + |p| > |s| then None
    else if s[from..from + |p|] == p then Some(from)
    else FindStr(s, p, from + 1)
  }

  /**
   * The result is where `p` occurs, and no position between `from` and the result (or anywhere
   * after `from`, when nothing is found) starts `p`.
   */
  lemma {:induction false} FindStrFirst(s: string, p: string, from: nat)
    ensures FindStr(s, p, from).Some? ==> OccursAt(s, p, FindStr(s, p, from).value)
    ensures forall i: nat :: from <= i && (FindStr(s, p, from).None? || i < FindStr(s, p, from).value) ==> !OccursAt(s, p, i)
    decreases |s| - from
  {
    if from + |p| <= |s| && s[from..from + |p|] != p {
      FindStrFirst(s, p, from + 1);
    }
  }

  /**
   * `s.substr(from, to - from)` with `size_t` arithmetic: a missing end (`npos`) or an end before
   * `from` (the difference wraps to a huge count) both take the rest of the string.
   */
  function Slice(s: string, from: nat, to: Option<nat>): (r: string)
    requires from <= |s|
    ensures to.Some? && from <= to.value <= |s| ==> r == s[from..to.value]
    ensures (to.None? || to.value < from) ==> r == s[from..]
  {
    if to.Some? && from <= to.value then s[from..if to.value <= |s| then to.value else |s|]
    else s[from..]
  }

  /** All of `s` except the occurrences of `c` (`s.erase(std::remove(...), s.end())`). */
  function Remove(s: string, c: char): (r: string)
    ensures c !in r
    ensures forall x :: x in r <==> x in s && x != c
    ensures c !in s ==> r == s
  {
    if s == [] then [] else (if s[0] == c then [] else [s[0]]) + Remove(s[1..], c)
  }

  lemma {:induction false} RemoveDistributes(a: string, b: string, c: char)
    ensures Remove(a + b, c) == Remove(a, c) + Remove(b, c)
  {
    if a == [] {
      assert a + b == b;
    } else {
      assert (a + b)[0] == a[0];
      assert (a + b)[1..] == a[1..] + b;
      RemoveDistributes(a[1..], b, c);
    }
  }

  // ----- Facts used to locate a search result inside a known layout -----

  /** A search for `c` from `from` stops at `k` when `k` holds `c` and `c` does not occur before it. */
  lemma {:induction false} FindCharAt(s: string, c: char, from: nat, k: nat)
    requires from <= k < |s| && s[k] == c
    requires c !in s[from..k]
    ensures FindChar(s, c, from) == Some(k)
  {
    FindCharFirst(s, c, from);
    forall i | from <= i < k ensures s[i] != c {
      assert s[i] == s[from..k][i - from];
    }
  }

  /** A search for `c` from `from` fails when `c` does not occur in `s[from..]`. */
  lemma {:induction false} FindCharNone(s: string, c: char, from: nat)
    requires from <= |s| && c !in s[from..]
    ensures FindChar(s, c, from) == None
  {
    FindCharFirst(s, c, from);
    forall i | from <= i < |s| ensures s[i] != c {
      assert s[i] == s[from..][i - from];
    }
  }

  /** A search for `p` stops at `k` when `p` occurs there and its first character does not occur before. */
  lemma {:induction false} FindStrAt(s: string, p: string, from: nat, k: nat)
    requires |p| > 0 && from <= k && OccursAt(s, p, k)
    requires p[0] !in s[from..k]
    ensures FindStr(s, p, from) == Some(k)
  {
    FindStrFirst(s, p, from);
    forall i: nat | from <= i < k ensures !OccursAt(s, p, i) {
      assert s[i] == s[from..k][i - from];
      if i + |p| <= |s| {
        assert s[i..i + |p|][0] == s[i];
      }
    }
  }

  /** A search for `p` stops where `p` occurs, when the search for its first character stops there too. */
  lemma {:induction false} FindStrAtChar(s: string, p: string, from: nat, k: nat)
    requires |p| > 0 && OccursAt(s, p, k) && FindChar(s, p[0], from) == Some(k)
    ensures FindStr(s, p, from) == Some(k)
  {
    FindStrFirst(s, p, from);
    FindCharFirst(s, p[0], from);
    forall i: nat | from <= i < k ensures !OccursAt(s, p, i) {
      if i + |p| <= |s| {
        assert s[i..i + |p|][0] == s[i];
      }
    }
  }

  /** As `FindStrAt`, using the pattern's second character, for patterns that start with a common one. */
  lemma {:induction false} FindStrAtSecond(s: string, p: string, from: nat, k: nat)
    requires |p| > 1 && from <= k && OccursAt(s, p, k)
    requires p[1] !in s[from..k] && s[k] != p[1]
    ensures FindStr(s, p, from) == Some(k)
  {
    FindStrFirst(s, p, from);
    forall i: nat | from <= i < k ensures !OccursAt(s, p, i) {
      if i + 1 < k {
        assert s[i + 1] == s[from..k][i + 1 - from];
      }
      if i + |p| <= |s| {
        assert s[i..i + |p|][1] == s[i + 1];
      }
    }
  }

  /** The first occurrence of `p` in `x + p`, when `p`'s second character differs from its first and is not in `x`. */
  lemma {:induction false} FindStrAtEnd(x: string, p: string)
    requires |p| > 1 && p[1] !in x && p[0] != p[1]
    ensures FindStr(x + p, p, 0) == Some(|x|)
  {
    var s := x + p;
    assert s[|x|..|x| + |p|] == p;
    assert s[0..|x|] == x;
    FindStrAtSecond(s, p, 0, |x|);
  }

  /** The first occurrence of `p` after `x` in `x + y + p + z`, when `p`'s second character differs from its first and is not in `y`. */
  lemma {:induction false} FindStrAfter(x: string, y: string, p: string, z: string)
    requires |p| > 1 && p[1] !in y && p[0] != p[1]
    ensures FindStr(x + y + p + z, p, |x|) == Some(|x| + |y|)
    ensures (x + y + p + z)[|x|..|x| + |y| + |p|] == y + p
  {
    var s := x + y + p + z;
    var k := |x| + |y|;
    assert s[k..k + |p|] == p;
    assert s[|x|..k] == y;
    FindStrAtSecond(s, p, |x|, k);
    assert s[|x|..k + |p|] == y + p;
  }

  /** A search for `p` fails when its second character never occurs after `from`. */
  lemma {:induction false} FindStrNoneSecond(s: string, p: string, from: nat)
    requires |p| > 1 && from < |s| && p[1] !in s[from + 1..]
    ensures FindStr(s, p, from) == None
  {
    FindStrFirst(s, p, from);
    forall i: nat | from <= i ensures !OccursAt(s, p, i) {
      if i + |p| <= |s| {
        assert s[i..i + |p|][1] == s[i + 1];
        assert s[i + 1] == s[from + 1..][i - from];
      }
    }
  }

  /** A slice of the middle part of `x + t + y`, located by offsets into `t`. */
  lemma {:induction false} Piece(x: string, t: string, y: string, i: nat, j: nat)
    requires i <= j <= |t|
    ensures (x + t + y)[|x| + i..|x| + j] == t[i..j]
  {
    assert forall n :: 0 <= n < j - i ==> (x + t + y)[|x| + i..|x| + j][n] == t[i..j][n];
  }

  /** A position found in a suffix, as a position of the whole text: `from` plus the prefix's length. */
  function Shift(r: Option<nat>, n: nat): Option<nat>
  {
    if r.None? then None else Some(r.value + n)
  }

  /** Searching `x + y` from inside `y` is searching `y` and shifting the result by `|x|`. */
  lemma {:induction false} FindCharSkip(x: string, y: string, c: char, j: nat)
    ensures FindChar(x + y, c, |x| + j) == Shift(FindChar(y, c, j), |x|)
    decreases |y| - j
  {
    if j < |y| {
      assert (x + y)[|x| + j] == y[j];
      if y[j] != c {
        FindCharSkip(x, y, c, j + 1);
      }
    }
  }

  /** Searching `x + y` from inside `x`: the hit in `x` if there is one, otherwise the first hit in `y`. */
  lemma {:induction false} FindCharAppend(x: string, y: string, c: char, i: nat)
    requires i <= |x|
    ensures FindChar(x + y, c, i)
         == if FindChar(x, c, i).Some? then FindChar(x, c, i) else Shift(FindChar(y, c, 0), |x|)
    decreases |x| - i
  {
    if i == |x| {
      FindCharSkip(x, y, c, 0);
    } else {
      assert (x + y)[i] == x[i];
      if x[i] != c {
        FindCharAppend(x, y, c, i + 1);
      }
    }
  }

  /** A search in `x + t + y` that starts and stops inside `t`, stated on `t` alone. */
  lemma {:induction false} FindCharInside(x: string, t: string, y: string, c: char, i: nat, j: nat, from: nat, to: nat)
    requires i <= |t| && FindChar(t, c, i) == Some(j) && from == |x| + i && to == |x| + j
    ensures FindChar(x + t + y, c, from) == Some(to)
  {
    FindCharAppend(x + t, y, c, |x| + i);
    FindCharSkip(x, t, c, i);
  }

  /** A slice of `x + t + y` that lies inside `t`, stated on `t` alone. */
  lemma {:induction false} LiftSlice(x: string, t: string, y: string, i: nat, j: nat, from: nat, to: nat)
    requires i <= j <= |t| && from == |x| + i && to == |x| + j
    ensures Slice(x + t + y, from, Some(to)) == t[i..j]
  {
    Piece(x, t, y, i, j);
  }

  /** A slice that lies inside the first part of a concatenation. */
  lemma {:induction false} PrefixSlice(u: string, w: string, i: nat, j: nat)
    requires i <= j <= |u|
    ensures (u + w)[i..j] == u[i..j]
  {
    assert forall n :: 0 <= n < j - i ==> (u + w)[i..j][n] == u[i..j][n];
  }

  /** A search that cannot stop in `u` before its end goes on into `w`. */
  lemma {:induction false} FindCharPast(u: string, w: string, c: char, i: nat)
    requires i <= |u| && c !in u
    ensures FindChar(u + w, c, i) == Shift(FindChar(w, c, 0), |u|)
  {
    FindCharNone(u, c, i);
    FindCharAppend(u, w, c, i);
  }

  // ----- Facts about a text `t` placed at `o` of a longer text `b` -----

  /** The characters of `t` are those of `b` from `o` on, stated character by character. */
  predicate Placed(b: string, t: string, o: nat)
  {
    o + |t| <= |b| && forall i :: 0 <= i < |t| ==> b[o + i] == t[i]
  }

  /** An occurrence of `t` at `o` places it there. */
  lemma {:induction false} OccursPlaced(b: string, t: string, o: nat)
    requires OccursAt(b, t, o)
    ensures Placed(b, t, o)
  {
    forall i | 0 <= i < |t|
      ensures b[o + i] == t[i]
    {
      assert b[o..o + |t|][i] == b[o + i];
    }
  }

  /** A search in `b` that starts and stops inside `t` placed at `o`, stated on `t` alone. */
  lemma {:induction false} FindCharIn(b: string, t: string, o: nat, c: char, i: nat, j: nat, from: nat, to: nat)
    requires Placed(b, t, o) && i <= j && FindChar(t, c, i) == Some(j) && from == o + i && to == o + j
    ensures FindChar(b, c, from) == Some(to)
    decreases j - i
  {
    assert b[from] == t[i];
    if t[i] != c {
      FindCharIn(b, t, o, c, i + 1, j, from + 1, to);
    }
  }

  /** A search in `b` that finds nothing in the rest of `t` placed at `o` goes on past it. */
  lemma {:induction false} FindCharOver(b: string, t: string, o: nat, c: char, i: nat, from: nat)
    requires Placed(b, t, o) && i <= |t| && FindChar(t, c, i) == None && from == o + i
    ensures FindChar(b, c, from) == FindChar(b, c, o + |t|)
    decreases |t| - i
  {
    if i < |t| {
      assert b[from] == t[i];
      FindCharOver(b, t, o, c, i + 1, from + 1);
    }
  }

  /** A slice of `b` inside `t` placed at `o`, stated on `t` alone. */
  lemma {:induction false} SliceIn(b: string, t: string, o: nat, i: nat, j: nat, from: nat, to: nat)
    requires Placed(b, t, o) && i <= j <= |t| && from == o + i && to == o + j
    ensures b[from..to] == t[i..j]
  {
    assert forall n :: 0 <= n < j - i ==> b[from..to][n] == t[i..j][n] == t[i + n];
  }

  /** The slice of `b` that `t` is placed on is `t`. */
  lemma {:induction false} PlacedSlice(b: string, t: string, o: nat)
    requires Placed(b, t, o)
    ensures b[o..o + |t|] == t
  {
    SliceIn(b, t, o, 0, |t|, o, o + |t|);
    assert t[0..|t|] == t;
  }

  /** Placing `u + v` places `u` and, right after it, `v`. */
  lemma {:induction false} PlacedSplit(b: string, u: string, v: string, o: nat)
    requires Placed(b, u + v, o)
    ensures Placed(b, u, o) && Placed(b, v, o + |u|)
  {
    forall i | 0 <= i < |u|
      ensures b[o + i] == u[i]
    {
      assert (u + v)[i] == u[i];
    }
    forall i | 0 <= i < |v|
      ensures b[o + |u| + i] == v[i]
    {
      assert (u + v)[|u| + i] == v[i];
    }
  }

  /** The middle part of `x + t + y` is placed at `|x|`. */
  lemma {:induction false} PlacedMiddle(x: string, t: string, y: string)
    ensures Placed(x + t + y, t, |x|)
  {
    forall i | 0 <= i < |t|
      ensures (x + t + y)[|x| + i] == t[i]
    {
    }
  }

  /** A search for `p` from where `y + p` is placed stops at that `p`, when `p`'s second character differs from its first and is not in `y`. */
  lemma {:induction false} FindStrPlaced(b: string, y: string, p: string, o: nat)
    requires |p| > 1 && p[1] !in y && p[0] != p[1] && Placed(b, y + p, o)
    ensures FindStr(b, p, o) == Some(o + |y|)
  {
    PlacedSplit(b, y, p, o);
    PlacedSlice(b, y, o);
    PlacedSlice(b, p, o + |y|);
    FindStrAtSecond(b, p, o, o + |y|);
  }
}
