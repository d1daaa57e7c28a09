/**
 * The JavaScript string and array built-ins the static host relies on:
 * `String.prototype.toLowerCase` (restricted to ASCII letters),
 * `String.prototype.indexOf`, and `Array.prototype.find` applied to a list
 * of extensions with the predicate "the path contains this extension".
 */
module Text {

  datatype Option<T> = None | Some(value: T)

  /** JavaScript truthiness of a `string | undefined` value: `undefined` and `""` are falsy. */
  predicate Truthy(o: Option<string>) {
    o.Some? && o.value != ""
  }

  predicate IsUpper(c: char) {
    'A' <= c <= 'Z'
  }

  /** ASCII lower-casing of one character. */
  function LowerChar(c: char): char {
    if IsUpper(c) then (c as int + 32) as char else c
  }

  /** `s.toLowerCase()`, restricted to the ASCII letters. */
  function Lower(s: string): (r: string)
    ensures |r| == |s|
    ensures forall i :: 0 <= i < |r| ==> !IsUpper(r[i])
    ensures forall i :: 0 <= i < |s| && !IsUpper(s[i]) ==> r[i] == s[i]
    ensures forall i :: 0 <= i < |s| && IsUpper(s[i]) ==> r[i] as int == s[i] as int + 32
  {
    seq(|s|, i requires 0 <= i < |s| => LowerChar(s[i]))
  }

  /** Lower-casing twice is lower-casing once. */
  lemma LowerIdempotent(s: string)
    ensures Lower(Lower(s)) == Lower(s)
  {
    var l := Lower(s);
    assert forall i :: 0 <= i < |l| ==> Lower(l)[i] == l[i];
  }

  /** Lower-casing distributes over concatenation. */
  lemma LowerAppend(a: string, b: string)
    ensures Lower(a + b) == Lower(a) + Lower(b)
  {
    assert forall i :: 0 <= i < |a + b| ==> Lower(a + b)[i] == (Lower(a) + Lower(b))[i];
  }

  /** `sub` occurs in `s` starting at index `i`. */
  predicate OccursAt(s: string, sub: string, i: int) {
    0 <= i && i + |sub| <= |s| && s[i..i + |sub|] == sub
  }

  /** `sub` is a substring of `s`. */
  ghost predicate Contains(s: string, sub: string) {
    exists i :: OccursAt(s, sub, i)
  }

  /** `sub[k..]` matches `s` character by character at `i + k`. */
  predicate MatchesFrom(s: string, sub: string, i: nat, k: nat)
    requires i + |sub| <= |s|
    decreases |sub| - k
  {
    k >= |sub| || (s[i + k] == sub[k] && MatchesFrom(s, sub, i, k + 1))
  }

  /** The character-by-character comparison decides an occurrence. */
  lemma {:induction false} MatchesFromOccurs(s: string, sub: string, i: nat, k: nat)
    requires i + |sub| <= |s|
    ensures MatchesFrom(s, sub, i, k) <==> forall j :: k <= j < |sub| ==> s[i + j] == sub[j]
    decreases |sub| - k
  {
    if k < |sub| {
      MatchesFromOccurs(s, sub, i, k + 1);
    }
  }

  /** The scan from `from` that `indexOf` performs: the first index at or after `from` where `sub` occurs, or -1. */
  function IndexOfFrom(s: string, sub: string, from: nat): (r: int)
    ensures r == -1 || (from <= r && OccursAt(s, sub, r))
    ensures r == -1 ==> forall j :: from <= j ==> !OccursAt(s, sub, j)
    ensures r != -1 ==> forall j :: from <= j < r ==> !OccursAt(s, sub, j)
    decreases |s| - from
  {
    if from + |sub| > |s| then -1
    else if MatchesFrom(s, sub, from, 0) then
      MatchesFromOccurs(s, sub, from, 0);
      assert MatchesFrom(s, sub, from, 0) <==> s[from..from + |sub|] == sub;
      from
    else
      MatchesFromOccurs(s, sub, from, 0);
      assert s[from..from + |sub|] != sub;
      IndexOfFrom(s, sub, from + 1)
  }

  /** `s.indexOf(sub)`: the first index where `sub` occurs, or -1 when it does not occur. */
  function IndexOf(s: string, sub: string): (r: int)
    ensures r == -1 <==> !Contains(s, sub)
    ensures r != -1 ==> OccursAt(s, sub, r) && forall j :: 0 <= j < r ==> !OccursAt(s, sub, j)
  {
    IndexOfFrom(s, sub, 0)
  }

  /** A string without a `.` contains nothing that starts with a `.`. */
  lemma NoDotNoExtension(s: string, ext: string)
    requires |ext| > 0 && ext[0] == '.'
    requires forall i :: 0 <= i < |s| ==> s[i] != '.'
    ensures !Contains(s, ext)
  {
    forall i | 0 <= i && i + |ext| <= |s|
      ensures !OccursAt(s, ext, i)
    {
      assert s[i..i + |ext|][0] == s[i] != ext[0];
    }
  }

  /**
   * `exts.find((ext) => s.indexOf(ext) !== -1)`: the first extension of `exts`
   * that occurs in `s`, or `None` (JavaScript `undefined`) when none does.
   */
  function FindContained(exts: seq<string>, s: string): (r: Option<string>)
    ensures r.None? <==> forall k :: 0 <= k < |exts| ==> !Contains(s, exts[k])
    ensures r.Some? ==> exists k :: 0 <= k < |exts| && exts[k] == r.value && Contains(s, exts[k]) &&
                                    forall j :: 0 <= j < k ==> !Contains(s, exts[j])
  {
    if exts == [] then None
    else if IndexOf(s, exts[0]) != -1 then Some(exts[0])
    else
      var rest := FindContained(exts[1..], s);
      assert forall k :: 1 <= k < |exts| ==> exts[k] == exts[1..][k - 1];
      rest
  }
}
