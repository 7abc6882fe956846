/**
 * The two JavaScript string operations the build script relies on:
 * `String.prototype.includes` (a substring test) and
 * `String.prototype.replace` with a literal pattern, which replaces only
 * the FIRST occurrence.
 */
module JsString {
  import opened Wrappers

  /** `t` occurs in `s` starting at index `i`. */
  predicate OccursAt(s: string, t: string, i: int) {
    0 <= i && i + |t| <= |s| && s[i..i + |t|] == t
  }

  /** The index of the first occurrence of `t` in `s` (JavaScript's `indexOf`, with `None` for -1). */
  function IndexOf(s: string, t: string): (r: Option<nat>)
    ensures r.Some? ==> OccursAt(s, t, r.value)
    ensures r.Some? ==> forall j :: 0 <= j < r.value ==> !OccursAt(s, t, j)
    ensures r.None? ==> forall j :: !OccursAt(s, t, j)
    decreases |s|
  {
    if t <= s then Some(0)
    else if |s| == 0 then None
    else
      var rest := IndexOf(s[1..], t);
      OccursShift(s, t);
      assert !OccursAt(s, t, 0);
      match rest
      case None => None
      case Some(i) => Some(i + 1)
  }

  /** An occurrence at `j >= 1` in `s` is an occurrence at `j - 1` in its tail. */
  lemma OccursShift(s: string, t: string)
    requires |s| > 0
    ensures forall j :: 1 <= j ==> (OccursAt(s, t, j) <==> OccursAt(s[1..], t, j - 1))
  {
    forall j | 1 <= j
      ensures OccursAt(s, t, j) <==> OccursAt(s[1..], t, j - 1)
    {
      if j + |t| <= |s| {
        assert s[1..][j - 1..j - 1 + |t|] == s[j..j + |t|];
      }
    }
  }

  /** `s.includes(t)`: the empty string is included in every string. */
  function Includes(s: string, t: string): (b: bool)
    ensures b <==> exists i :: OccursAt(s, t, i)
  {
    IndexOf(s, t).Some?
  }

  /** `s.replace(t, r)` with a literal pattern `t` and a literal replacement `r`. */
  function ReplaceFirst(s: string, t: string, r: string): string
    decreases |s|
  {
    if t <= s then r + s[|t|..]
    else if |s| == 0 then s
    else [s[0]] + ReplaceFirst(s[1..], t, r)
  }

  /**
   * Replacement touches exactly the first occurrence: the text before it and
   * after it is kept, and a string without the token comes back unchanged.
   */
  lemma {:induction false} ReplaceFirstSpec(s: string, t: string, r: string)
    ensures IndexOf(s, t).None? ==> ReplaceFirst(s, t, r) == s
    ensures IndexOf(s, t).Some? ==>
      var i := IndexOf(s, t).value;
      ReplaceFirst(s, t, r) == s[..i] + r + s[i + |t|..]
    decreases |s|
  {
    if t <= s {
      assert IndexOf(s, t) == Some(0);
      assert s[..0] + r + s[|t|..] == r + s[|t|..];
    } else if |s| > 0 {
      ReplaceFirstSpec(s[1..], t, r);
      var rest := IndexOf(s[1..], t);
      assert IndexOf(s, t) == if rest.None? then None else Some(rest.value + 1);
      if rest.Some? {
        ReplacedInTail(s, t, r, rest.value);
      } else {
        assert ReplaceFirst(s, t, r) == [s[0]] + s[1..] == s;
      }
    }
  }

  /** A replacement made at `i` in the tail of `s` is the replacement made at `i + 1` in `s`. */
  lemma ReplacedInTail(s: string, t: string, r: string, i: nat)
    requires |s| > 0 && !(t <= s) && i + |t| <= |s| - 1
    requires ReplaceFirst(s[1..], t, r) == s[1..][..i] + r + s[1..][i + |t|..]
    ensures ReplaceFirst(s, t, r) == s[..i + 1] + r + s[i + 1 + |t|..]
  {
    assert ReplaceFirst(s, t, r) == [s[0]] + ReplaceFirst(s[1..], t, r);
    ConsReplaced(s, r, i, i + |t|);
  }

  /** Putting the first character back in front of a replacement made in the tail. */
  lemma ConsReplaced(s: string, r: string, i: nat, k: nat)
    requires |s| > 0 && i <= k <= |s| - 1
    ensures [s[0]] + (s[1..][..i] + r + s[1..][k..]) == s[..i + 1] + r + s[k + 1..]
  {
    ConsSlices(s, i, k);
    assert [s[0]] + (s[1..][..i] + r + s[1..][k..]) == ([s[0]] + s[1..][..i]) + r + s[1..][k..];
  }

  /** Slices of the tail of `s`, seen as slices of `s`. */
  lemma ConsSlices(s: string, i: nat, k: nat)
    requires |s| > 0 && i <= k <= |s| - 1
    ensures [s[0]] + s[1..][..i] == s[..i + 1]
    ensures s[1..][k..] == s[k + 1..]
  {
  }

  /**
   * A string holding the token exactly once: after replacement the token's
   * text is gone from that place, and everything around it is unchanged.
   */
  lemma ReplaceSingleOccurrence(s: string, t: string, r: string, i: nat)
    requires OccursAt(s, t, i)
    requires forall j :: OccursAt(s, t, j) ==> j == i
    ensures ReplaceFirst(s, t, r) == s[..i] + r + s[i + |t|..]
  {
    ReplaceFirstSpec(s, t, r);
  }

  /** An occurrence of a non-empty pattern starts with the pattern's first character. */
  lemma OccursFirstChar(s: string, t: string)
    requires |t| > 0
    ensures forall i :: OccursAt(s, t, i) ==> s[i] == t[0]
  {
    forall i | OccursAt(s, t, i) ensures s[i] == t[0] {
      assert s[i..i + |t|][0] == s[i];
    }
  }
}
