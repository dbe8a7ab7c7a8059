/** Character-level string helpers shared by both crates: the `trim_*_matches`,
    `replace` and `trim` family of Rust's `str`. */
module Strings {

  /** `s.trim_end_matches(drop)`: the longest prefix of `s` after which only
      characters satisfying `drop` remain. */
  function TrimEndWhere(s: string, drop: char -> bool): (r: string)
    ensures |r| <= |s| && r == s[..|r|]
    ensures forall i | |r| <= i < |s| :: drop(s[i])
    ensures |r| == 0 || !drop(r[|r| - 1])
  {
    if |s| > 0 && drop(s[|s| - 1]) then TrimEndWhere(s[..|s| - 1], drop) else s
  }

  /** `s.trim_start_matches(drop)`: the longest suffix of `s` before which only
      characters satisfying `drop` occur. */
  function TrimStartWhere(s: string, drop: char -> bool): (r: string)
    ensures |r| <= |s| && r == s[|s| - |r|..]
    ensures forall i | 0 <= i < |s| - |r| :: drop(s[i])
    ensures |r| == 0 || !drop(r[0])
  {
    if |s| > 0 && drop(s[0]) then
      var r := TrimStartWhere(s[1..], drop);
      assert s[1..][|s| - 1 - |r|..] == s[|s| - |r|..];
      r
    else s
  }

  /** A string whose last character is kept is its own end-trim. */
  lemma TrimEndFixed(s: string, drop: char -> bool)
    requires |s| == 0 || !drop(s[|s| - 1])
    ensures TrimEndWhere(s, drop) == s
  {
  }

  /** A string whose first character is kept is its own start-trim. */
  lemma TrimStartFixed(s: string, drop: char -> bool)
    requires |s| == 0 || !drop(s[0])
    ensures TrimStartWhere(s, drop) == s
  {
  }

  /** Trimming the end of `s + t`, where `t` consists of dropped characters and
      the last character of `s` is kept, gives back exactly `s`. */
  lemma TrimEndSuffix(s: string, t: string, drop: char -> bool)
    requires |s| == 0 || !drop(s[|s| - 1])
    requires forall i | 0 <= i < |t| :: drop(t[i])
    ensures TrimEndWhere(s + t, drop) == s
  {
    assert (s + t)[..|s|] == s;
  }

  predicate IsLineFeed(c: char) {
    c == '\n'
  }

  /** Every character of `t` satisfies `drop`. */
  predicate All(t: string, drop: char -> bool) {
    forall i | 0 <= i < |t| :: drop(t[i])
  }

  /** A suffix `r` of `s` preceded only by dropped characters. */
  lemma DroppedPrefix(s: string, r: string, drop: char -> bool)
    requires |r| <= |s| && r == s[|s| - |r|..]
    requires forall i | 0 <= i < |s| - |r| :: drop(s[i])
    ensures s == s[..|s| - |r|] + r && All(s[..|s| - |r|], drop)
  {
    var k := |s| - |r|;
    assert s[..k] + s[k..] == s;
    forall i | 0 <= i < k
      ensures drop(s[..k][i])
    {
      assert s[..k][i] == s[i];
    }
  }

  /** A prefix `r` of `s` followed only by dropped characters. */
  lemma DroppedSuffix(s: string, r: string, drop: char -> bool)
    requires |r| <= |s| && r == s[..|r|]
    requires forall i | |r| <= i < |s| :: drop(s[i])
    ensures s == r + s[|r|..] && All(s[|r|..], drop)
  {
    assert s[..|r|] + s[|r|..] == s;
    forall i | 0 <= i < |s| - |r|
      ensures drop(s[|r|..][i])
    {
      assert s[|r|..][i] == s[|r| + i];
    }
  }

  /** Trimming both ends leaves `s` split as dropped characters, the result,
      and dropped characters again. */
  lemma TrimBothSlice(s: string, drop: char -> bool) returns (lead: string, trail: string)
    ensures s == lead + TrimEndWhere(TrimStartWhere(s, drop), drop) + trail
    ensures All(lead, drop) && All(trail, drop)
  {
    var front := TrimStartWhere(s, drop);
    var r := TrimEndWhere(front, drop);
    DroppedPrefix(s, front, drop);
    DroppedSuffix(front, r, drop);
    lead, trail := s[..|s| - |front|], front[|r|..];
    JoinThree(s, lead, front, r, trail);
  }

  lemma JoinThree(s: string, lead: string, front: string, r: string, trail: string)
    requires s == lead + front && front == r + trail
    ensures s == lead + r + trail
  {
  }

  /** Every character `from` replaced by `to` (`str::replace` with one-character
      patterns). */
  function ReplaceChar(s: string, from: char, to: char): (r: string)
    ensures |r| == |s|
    ensures forall i | 0 <= i < |s| :: r[i] == (if s[i] == from then to else s[i])
  {
    seq(|s|, i requires 0 <= i < |s| => if s[i] == from then to else s[i])
  }

  /** `s` with every character satisfying `drop` deleted (`str::replace` with a
      character-set pattern and an empty replacement). */
  function RemoveWhere(s: string, drop: char -> bool): (r: string)
    ensures |r| <= |s|
    ensures forall i | 0 <= i < |r| :: !drop(r[i])
  {
    if s == [] then [] else if drop(s[0]) then RemoveWhere(s[1..], drop) else [s[0]] + RemoveWhere(s[1..], drop)
  }

  /** Removal keeps every other character as often as it occurs, and leaves a
      string with nothing to drop unchanged. */
  lemma RemoveWhereKeeps(s: string, drop: char -> bool)
    ensures forall c | !drop(c) :: multiset(RemoveWhere(s, drop))[c] == multiset(s)[c]
    ensures (forall i | 0 <= i < |s| :: !drop(s[i])) ==> RemoveWhere(s, drop) == s
  {
    RemoveWhereCounts(s, drop);
    if forall i | 0 <= i < |s| :: !drop(s[i]) {
      RemoveWhereNothing(s, drop);
    }
  }

  lemma {:induction false} RemoveWhereCounts(s: string, drop: char -> bool)
    ensures forall c | !drop(c) :: multiset(RemoveWhere(s, drop))[c] == multiset(s)[c]
    decreases |s|
  {
    if s != [] {
      RemoveWhereCounts(s[1..], drop);
      CountsStep(s, RemoveWhere(s[1..], drop), RemoveWhere(s, drop), drop);
    }
  }

  /** One step of the count argument, on the strings alone. */
  lemma CountsStep(s: string, rest: string, r: string, drop: char -> bool)
    requires s != []
    requires r == if drop(s[0]) then rest else [s[0]] + rest
    requires forall c | !drop(c) :: multiset(rest)[c] == multiset(s[1..])[c]
    ensures forall c | !drop(c) :: multiset(r)[c] == multiset(s)[c]
  {
    assert s == [s[0]] + s[1..];
    assert multiset(s) == multiset{s[0]} + multiset(s[1..]);
    if !drop(s[0]) {
      assert multiset(r) == multiset{s[0]} + multiset(rest);
    }
  }

  lemma {:induction false} RemoveWhereNothing(s: string, drop: char -> bool)
    requires forall i | 0 <= i < |s| :: !drop(s[i])
    ensures RemoveWhere(s, drop) == s
    decreases |s|
  {
    if s != [] {
      assert forall i | 0 <= i < |s| - 1 :: s[1..][i] == s[i + 1];
      RemoveWhereNothing(s[1..], drop);
      assert s == [s[0]] + s[1..];
    }
  }

  /** Removal works character by character, left to right: removing from a
      concatenation is removing from each part. */
  lemma {:induction false} RemoveWhereAppend(a: string, b: string, drop: char -> bool)
    ensures RemoveWhere(a + b, drop) == RemoveWhere(a, drop) + RemoveWhere(b, drop)
    decreases |a|
  {
    if a != [] {
      assert (a + b)[1..] == a[1..] + b;
      RemoveWhereAppend(a[1..], b, drop);
    } else {
      assert a + b == b;
    }
  }

  /** A single character is removed exactly when it satisfies `drop`. */
  lemma RemoveWhereOne(c: char, drop: char -> bool)
    ensures RemoveWhere([c], drop) == if drop(c) then [] else [c]
  {
    assert [c][1..] == [];
  }

  /** Removal deletes a string made only of dropped characters. */
  lemma {:induction false} RemoveWhereAll(t: string, drop: char -> bool)
    requires All(t, drop)
    ensures RemoveWhere(t, drop) == []
    decreases |t|
  {
    if t != [] {
      assert All(t[1..], drop) by {
        forall i | 0 <= i < |t| - 1
          ensures drop(t[1..][i])
        {
          assert t[1..][i] == t[i + 1];
        }
      }
      RemoveWhereAll(t[1..], drop);
    }
  }

  /** Cutting dropped characters from both ends does not change what removal
      leaves. */
  lemma RemoveWhereTrimmed(lead: string, r: string, trail: string, drop: char -> bool)
    requires All(lead, drop) && All(trail, drop)
    ensures RemoveWhere(lead + r + trail, drop) == RemoveWhere(r, drop)
  {
    RemoveWhereAppend(lead + r, trail, drop);
    RemoveWhereAppend(lead, r, drop);
    RemoveWhereAll(lead, drop);
    RemoveWhereAll(trail, drop);
  }
}
