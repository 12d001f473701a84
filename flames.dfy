/**
 * The FLAMES name game of `calculateFlames`: both names are normalised to
 * the letters a..z, letters the two names share are crossed out one pair at
 * a time, and the number of letters left drives an elimination around the
 * ring F-L-A-M-E-S until one letter survives; that letter picks the result.
 *
 * Each imperative step is a method proved against a recursive specification
 * function (Cancel, Survivor, EliminationOrder, FlamesOf); the lemmas then
 * say what those functions mean.
 */
module Flames {
  import opened Wrappers

  /** The six results, one per letter of FLAMES (the labels of FLAMES_MAP). */
  datatype Relationship = Friends | Lovers | Affectionate | Marriage | Enemies | Siblings

  // ---------------------------------------------------------------------
  // Step 1: normalisation, `toLowerCase()` then `replace(/[^a-z]/g, '')`
  // ---------------------------------------------------------------------

  predicate IsLowerLetter(c: char)
  {
    'a' <= c <= 'z'
  }

  predicate IsUpperLetter(c: char)
  {
    'A' <= c <= 'Z'
  }

  /** Lower-casing of one character, ASCII only: A..Z become a..z, all else is kept. */
  function LowerChar(c: char): (d: char)
    ensures IsLowerLetter(d) <==> IsUpperLetter(c) || IsLowerLetter(c)
    ensures !IsUpperLetter(c) ==> d == c
  {
    if IsUpperLetter(c) then (c as int - 'A' as int + 'a' as int) as char else c
  }

  /** Upper-casing of one character, ASCII only (used to state case insensitivity). */
  function UpperChar(c: char): (d: char)
    ensures IsUpperLetter(d) <==> IsUpperLetter(c) || IsLowerLetter(c)
    ensures LowerChar(d) == LowerChar(c)
  {
    if IsLowerLetter(c) then (c as int - 'a' as int + 'A' as int) as char else c
  }

  /** `toLowerCase`, ASCII only: upper-case letters become lower-case, all else is kept. */
  function ToLower(s: string): (r: string)
    ensures |r| == |s|
    ensures forall i :: 0 <= i < |s| ==> (IsLowerLetter(r[i]) <==> IsUpperLetter(s[i]) || IsLowerLetter(s[i]))
    ensures forall i :: 0 <= i < |s| && !IsUpperLetter(s[i]) ==> r[i] == s[i]
  {
    seq(|s|, i requires 0 <= i < |s| => LowerChar(s[i]))
  }

  /** Upper-casing of a whole string, ASCII only (used to state case insensitivity). */
  function ToUpper(s: string): string
  {
    seq(|s|, i requires 0 <= i < |s| => UpperChar(s[i]))
  }

  /** The characters of `s` that lie in a..z, in order. */
  function KeepLetters(s: string): (r: string)
    ensures |r| <= |s|
    ensures forall i :: 0 <= i < |r| ==> IsLowerLetter(r[i])
  {
    if s == [] then []
    else if IsLowerLetter(s[0]) then [s[0]] + KeepLetters(s[1..])
    else KeepLetters(s[1..])
  }

  /** A name as the game sees it: lower-cased, with everything but a..z removed. */
  function Normalize(name: string): (n: string)
    ensures |n| <= |name|
    ensures forall i :: 0 <= i < |n| ==> IsLowerLetter(n[i])
  {
    KeepLetters(ToLower(name))
  }

  lemma {:induction false} KeepLettersConcat(a: string, b: string)
    ensures KeepLetters(a + b) == KeepLetters(a) + KeepLetters(b)
    decreases |a|
  {
    if a == [] {
      assert a + b == b;
    } else {
      assert (a + b)[1..] == a[1..] + b;
      KeepLettersConcat(a[1..], b);
    }
  }

  /** A string made only of a..z is kept whole: normalising is idempotent. */
  lemma {:induction false} KeepLettersOfLetters(s: string)
    requires forall i :: 0 <= i < |s| ==> IsLowerLetter(s[i])
    ensures KeepLetters(s) == s
    decreases |s|
  {
    if s != [] {
      KeepLettersOfLetters(s[1..]);
    }
  }

  lemma NormalizeIdempotent(name: string)
    ensures Normalize(Normalize(name)) == Normalize(name)
  {
    var n := Normalize(name);
    assert ToLower(n) == n;
    KeepLettersOfLetters(n);
  }

  /** Names that agree up to ASCII case normalise alike. */
  lemma NormalizeIgnoresCase(s: string, t: string)
    requires |s| == |t|
    requires forall i :: 0 <= i < |s| ==> LowerChar(s[i]) == LowerChar(t[i])
    ensures Normalize(s) == Normalize(t)
  {
    assert ToLower(s) == ToLower(t);
  }

  lemma NormalizeUpper(s: string)
    ensures Normalize(ToUpper(s)) == Normalize(s)
  {
    NormalizeIgnoresCase(ToUpper(s), s);
  }

  /** Inserting a character that is no ASCII letter anywhere leaves the normal form unchanged. */
  lemma NormalizeIgnoresNonLetters(s: string, k: nat, c: char)
    requires k <= |s|
    requires !IsLowerLetter(c) && !IsUpperLetter(c)
    ensures Normalize(s[..k] + [c] + s[k..]) == Normalize(s)
  {
    var pre, post := ToLower(s[..k]), ToLower(s[k..]);
    assert ToLower(s[..k] + [c] + s[k..]) == pre + [c] + post;
    assert ToLower(s) == pre + post by {
      assert s == s[..k] + s[k..];
    }
    KeepLettersConcat(pre + [c], post);
    KeepLettersConcat(pre, [c]);
    KeepLettersConcat(pre, post);
  }

  // ---------------------------------------------------------------------
  // Step 2: crossing out common letters
  // ---------------------------------------------------------------------

  /** `Array.prototype.indexOf`: the first position of `c` in `s`, or -1. */
  function IndexOf(s: seq<char>, c: char): (r: int)
    ensures -1 <= r < |s|
    ensures r == -1 <==> c !in s
    ensures r != -1 ==> s[r] == c && c !in s[..r]
  {
    if s == [] then -1
    else if s[0] == c then 0
    else
      var k := IndexOf(s[1..], c);
      assert s[1..][..k + 1] == s[1..k + 2] || k == -1;
      if k == -1 then -1 else k + 1
  }

  /** `splice(k, 1)`: `s` without its element at position `k`. */
  function RemoveAt(s: seq<char>, k: nat): (r: seq<char>)
    requires k < |s|
    ensures |r| == |s| - 1
  {
    s[..k] + s[k + 1..]
  }

  /** The elements before `k` stay in place; the ones after it move one slot to the left. */
  lemma RemoveAtShifts(s: seq<char>, k: nat)
    requires k < |s|
    ensures forall i :: 0 <= i < k ==> RemoveAt(s, k)[i] == s[i]
    ensures forall i :: k <= i < |s| - 1 ==> RemoveAt(s, k)[i] == s[i + 1]
  {
  }

  lemma RemoveAtMultiset(s: seq<char>, k: nat)
    requires k < |s|
    ensures multiset(s) == multiset(RemoveAt(s, k)) + multiset{s[k]}
  {
    assert s == s[..k] + [s[k]] + s[k + 1..];
  }

  /**
   * The letters of each name left after crossing out: the first name is
   * scanned left to right, and a letter that still occurs in the second name
   * is crossed out of both, taking the first such occurrence in the second.
   */
  function Cancel(n1: seq<char>, n2: seq<char>): (r: (seq<char>, seq<char>))
    ensures |r.0| <= |n1| && |r.1| <= |n2|
    decreases |n1|
  {
    if n1 == [] then ([], n2)
    else
      var k := IndexOf(n2, n1[0]);
      if k != -1 then Cancel(n1[1..], RemoveAt(n2, k))
      else
        var rest := Cancel(n1[1..], n2);
        ([n1[0]] + rest.0, rest.1)
  }

  /** The FLAMES count: the number of letters of both names left after crossing out. */
  function LetterCount(n1: seq<char>, n2: seq<char>): (count: nat)
    ensures count <= |n1| + |n2|
  {
    |Cancel(n1, n2).0| + |Cancel(n1, n2).1|
  }

  /** One letter of the scan, as an unfolding of Cancel: crossed out of both names, or kept. */
  lemma CancelStep(n1: seq<char>, n2: seq<char>)
    requires n1 != []
    ensures var k := IndexOf(n2, n1[0]);
            k != -1 ==> Cancel(n1, n2) == Cancel(n1[1..], RemoveAt(n2, k))
    ensures IndexOf(n2, n1[0]) == -1 ==>
            Cancel(n1, n2) == ([n1[0]] + Cancel(n1[1..], n2).0, Cancel(n1[1..], n2).1)
  {
  }

  /** One pass of the cross-out loop at index `i`, in terms of the scanned and unscanned parts. */
  lemma ScanStep(letters1: seq<char>, letters2: seq<char>, i: nat)
    requires i < |letters1|
    ensures var k := IndexOf(letters2, letters1[i]);
            k != -1 ==> RemoveAt(letters1, i)[..i] == letters1[..i]
                        && Cancel(letters1[i..], letters2) == Cancel(RemoveAt(letters1, i)[i..], RemoveAt(letters2, k))
    ensures var k := IndexOf(letters2, letters1[i]);
            k == -1 ==> letters1[..i + 1] == letters1[..i] + [letters1[i]]
                        && Cancel(letters1[i..], letters2)
                           == ([letters1[i]] + Cancel(letters1[i + 1..], letters2).0, Cancel(letters1[i + 1..], letters2).1)
  {
    var scanned := letters1[i..];
    assert scanned[0] == letters1[i] && scanned[1..] == letters1[i + 1..];
    assert RemoveAt(letters1, i)[i..] == letters1[i + 1..];
    CancelStep(scanned, letters2);
  }

  /**
   * The cross-out loop: `letters1` and `letters2` shrink in place, and the
   * index steps back after a match so that the letter shifted into the freed
   * slot is examined next.
   */
  method CrossOutCommonLetters(n1: seq<char>, n2: seq<char>)
    returns (letters1: seq<char>, letters2: seq<char>)
    ensures letters1 == Cancel(n1, n2).0 && letters2 == Cancel(n1, n2).1
    ensures multiset(letters1) == multiset(n1) - multiset(n2)
    ensures multiset(letters2) == multiset(n2) - multiset(n1)
    ensures forall i :: 0 <= i < |letters1| ==> letters1[i] !in letters2
  {
    letters1, letters2 := n1, n2;
    ghost var goal := Cancel(n1, n2);
    var i: int := 0;
    while i < |letters1|
      invariant 0 <= i <= |letters1|
      invariant goal.0 == letters1[..i] + Cancel(letters1[i..], letters2).0
      invariant goal.1 == Cancel(letters1[i..], letters2).1
      decreases |letters1| - i
    {
      var ch := letters1[i];
      var index2 := IndexOf(letters2, ch);
      ScanStep(letters1, letters2, i);
      if index2 != -1 {
        letters1 := RemoveAt(letters1, i);
        letters2 := RemoveAt(letters2, index2);
        i := i - 1;
      }
      i := i + 1;
    }
    assert letters1[i..] == [] && letters1[..i] == letters1;
    assert Cancel(letters1[i..], letters2) == ([], letters2);
    assert letters1 == goal.0 && letters2 == goal.1;
    CancelMultiset(n1, n2);
    CancelDisjoint(n1, n2);
  }

  /** Adding the same letter to both sides leaves both multiset differences unchanged. */
  lemma DifferenceAddBoth(a: multiset<char>, b: multiset<char>, c: char)
    ensures (a + multiset{c}) - (b + multiset{c}) == a - b
    ensures (b + multiset{c}) - (a + multiset{c}) == b - a
  {
    forall x ensures ((a + multiset{c}) - (b + multiset{c}))[x] == (a - b)[x] {
      if x == c {} else {}
    }
    forall x ensures ((b + multiset{c}) - (a + multiset{c}))[x] == (b - a)[x] {
      if x == c {} else {}
    }
  }

  /** A letter absent from b passes through the difference a - b, and does not affect b - a. */
  lemma DifferenceAddAbsent(a: multiset<char>, b: multiset<char>, c: char)
    requires c !in b
    ensures (a + multiset{c}) - b == (a - b) + multiset{c}
    ensures b - (a + multiset{c}) == b - a
  {
    forall x ensures ((a + multiset{c}) - b)[x] == ((a - b) + multiset{c})[x] {
      if x == c {} else {}
    }
    forall x ensures (b - (a + multiset{c}))[x] == (b - a)[x] {
      if x == c {} else {}
    }
  }

  /** Crossing out takes the multiset difference of the two names, both ways. */
  lemma {:induction false} CancelMultiset(n1: seq<char>, n2: seq<char>)
    ensures multiset(Cancel(n1, n2).0) == multiset(n1) - multiset(n2)
    ensures multiset(Cancel(n1, n2).1) == multiset(n2) - multiset(n1)
    decreases |n1|
  {
    if n1 != [] {
      var c, t := n1[0], n1[1..];
      assert multiset(n1) == multiset(t) + multiset{c} by {
        assert n1 == [c] + t;
      }
      var k := IndexOf(n2, c);
      if k != -1 {
        var n2' := RemoveAt(n2, k);
        RemoveAtMultiset(n2, k);
        assert Cancel(n1, n2) == Cancel(t, n2');
        CancelMultiset(t, n2');
        DifferenceAddBoth(multiset(t), multiset(n2'), c);
      } else {
        var rest := Cancel(t, n2);
        assert Cancel(n1, n2) == ([c] + rest.0, rest.1);
        CancelMultiset(t, n2);
        assert multiset([c] + rest.0) == multiset(rest.0) + multiset{c};
        DifferenceAddAbsent(multiset(t), multiset(n2), c);
      }
    }
  }

  /** Each match shortens both names by one: the same number m leaves each. */
  lemma {:induction false} CancelBalanced(n1: seq<char>, n2: seq<char>)
    ensures |n1| - |Cancel(n1, n2).0| == |n2| - |Cancel(n1, n2).1| >= 0
    ensures LetterCount(n1, n2) == |n1| + |n2| - 2 * (|n1| - |Cancel(n1, n2).0|)
    decreases |n1|
  {
    if n1 != [] {
      var k := IndexOf(n2, n1[0]);
      if k != -1 {
        CancelBalanced(n1[1..], RemoveAt(n2, k));
      } else {
        CancelBalanced(n1[1..], n2);
      }
    }
  }

  /** Of each letter x, exactly min(count of x in n1, count of x in n2) copies are crossed out of each name. */
  lemma CancelRemovesMin(n1: seq<char>, n2: seq<char>, x: char)
    ensures multiset(Cancel(n1, n2).0)[x] + Min(multiset(n1)[x], multiset(n2)[x]) == multiset(n1)[x]
    ensures multiset(Cancel(n1, n2).1)[x] + Min(multiset(n1)[x], multiset(n2)[x]) == multiset(n2)[x]
  {
    CancelMultiset(n1, n2);
  }

  /** No letter left in the first name occurs among the letters left in the second. */
  lemma CancelDisjoint(n1: seq<char>, n2: seq<char>)
    ensures forall x :: x in Cancel(n1, n2).0 ==> x !in Cancel(n1, n2).1
  {
    CancelMultiset(n1, n2);
    forall x | x in Cancel(n1, n2).0
      ensures x !in Cancel(n1, n2).1
    {
      assert x in multiset(Cancel(n1, n2).0);
    }
  }

  /** The count is the size of the multiset symmetric difference of the two names. */
  lemma CountIsSymmetricDifference(n1: seq<char>, n2: seq<char>)
    ensures LetterCount(n1, n2) == |multiset(n1) - multiset(n2)| + |multiset(n2) - multiset(n1)|
  {
    CancelMultiset(n1, n2);
  }

  /** The count does not depend on which name comes first. */
  lemma CountSymmetric(n1: seq<char>, n2: seq<char>)
    ensures LetterCount(n1, n2) == LetterCount(n2, n1)
  {
    CountIsSymmetricDifference(n1, n2);
    CountIsSymmetricDifference(n2, n1);
  }

  /** The count is zero exactly when the two names are anagrams of each other. */
  lemma CountZeroIffAnagram(n1: seq<char>, n2: seq<char>)
    ensures LetterCount(n1, n2) == 0 <==> multiset(n1) == multiset(n2)
  {
    CancelMultiset(n1, n2);
    var d1, d2 := multiset(n1) - multiset(n2), multiset(n2) - multiset(n1);
    if LetterCount(n1, n2) == 0 {
      assert |d1| == 0 && |d2| == 0;
      forall x ensures multiset(n1)[x] == multiset(n2)[x] {
        assert d1[x] == 0 && d2[x] == 0;
      }
    }
  }

  /** Names with no letter in common cross out nothing. */
  lemma {:induction false} CancelNothingShared(n1: seq<char>, n2: seq<char>)
    requires forall i :: 0 <= i < |n1| ==> n1[i] !in n2
    ensures Cancel(n1, n2) == (n1, n2)
    ensures LetterCount(n1, n2) == |n1| + |n2|
    decreases |n1|
  {
    if n1 != [] {
      CancelNothingShared(n1[1..], n2);
      assert [n1[0]] + n1[1..] == n1;
    }
  }

  // ---------------------------------------------------------------------
  // Step 3: elimination around the ring F-L-A-M-E-S
  // ---------------------------------------------------------------------

  /** The initial ring `['F', 'L', 'A', 'M', 'E', 'S']`. */
  const Ring: seq<char> := ['F', 'L', 'A', 'M', 'E', 'S']

  /**
   * The letters of `ring` in the order the elimination removes them, the
   * survivor last: starting at `cursor`, the element `count` places on
   * (wrapping around) is removed and the cursor stays on the slot it freed
   * (wrapping to 0 past the end), until a single letter remains.
   */
  function EliminationOrder(ring: seq<char>, cursor: nat, count: nat): (order: seq<char>)
    requires 1 <= |ring| && cursor < |ring| && 1 <= count
    ensures |order| == |ring|
    decreases |ring|
  {
    if |ring| == 1 then ring
    else
      var removeIndex := (cursor + count - 1) % |ring|;
      var rest := RemoveAt(ring, removeIndex);
      [ring[removeIndex]] + EliminationOrder(rest, removeIndex % |rest|, count)
  }

  /** Every letter of the ring is removed exactly once, except the survivor, which is left. */
  lemma {:induction false} EliminationIsPermutation(ring: seq<char>, cursor: nat, count: nat)
    requires 1 <= |ring| && cursor < |ring| && 1 <= count
    ensures multiset(EliminationOrder(ring, cursor, count)) == multiset(ring)
    decreases |ring|
  {
    if |ring| > 1 {
      var k := (cursor + count - 1) % |ring|;
      var rest := RemoveAt(ring, k);
      var tail := EliminationOrder(rest, k % |rest|, count);
      assert EliminationOrder(ring, cursor, count) == [ring[k]] + tail;
      EliminationIsPermutation(rest, k % |rest|, count);
      RemoveAtMultiset(ring, k);
      assert multiset([ring[k]] + tail) == multiset{ring[k]} + multiset(tail);
    }
  }

  /** The letter left standing: the last of the elimination order. */
  function Survivor(ring: seq<char>, count: nat): (last: char)
    requires 1 <= |ring| && 1 <= count
    ensures last in ring
  {
    var order := EliminationOrder(ring, 0, count);
    EliminationIsPermutation(ring, 0, count);
    assert order[|ring| - 1] in multiset(ring);
    order[|ring| - 1]
  }

  /** One pass of the elimination loop, as an unfolding of EliminationOrder. */
  lemma EliminationStep(ring: seq<char>, cursor: nat, count: nat, k: nat)
    requires 2 <= |ring| && cursor < |ring| && 1 <= count
    requires k == (cursor + count - 1) % |ring|
    ensures var rest := RemoveAt(ring, k);
            EliminationOrder(ring, cursor, count) == [ring[k]] + EliminationOrder(rest, k % |rest|, count)
  {
  }

  /**
   * The elimination loop over the ring `flames`: it shrinks by one letter per
   * pass, and the cursor is reset to the freed slot, wrapping to 0 past the
   * end. `removed` records the letters in the order they go.
   */
  method Eliminate(flames: seq<char>, count: nat) returns (finalLetter: char, ghost removed: seq<char>)
    requires 1 <= |flames| && 1 <= count
    ensures removed + [finalLetter] == EliminationOrder(flames, 0, count)
    ensures |removed| == |flames| - 1
    ensures finalLetter == Survivor(flames, count)
  {
    var ring := flames;
    var currentIndex: nat := 0;
    removed := [];
    while |ring| > 1
      invariant 1 <= |ring|
      invariant currentIndex < |ring|
      invariant removed + EliminationOrder(ring, currentIndex, count) == EliminationOrder(flames, 0, count)
      decreases |ring|
    {
      var removeIndex := (currentIndex + count - 1) % |ring|;
      EliminationStep(ring, currentIndex, count, removeIndex);
      ghost var rest := RemoveAt(ring, removeIndex);
      assert removed + ([ring[removeIndex]] + EliminationOrder(rest, removeIndex % |rest|, count))
          == (removed + [ring[removeIndex]]) + EliminationOrder(rest, removeIndex % |rest|, count);
      removed := removed + [ring[removeIndex]];
      ring := RemoveAt(ring, removeIndex);
      currentIndex := removeIndex % |ring|;
    }
    finalLetter := ring[0];
    assert ring == [finalLetter];
    assert (removed + [finalLetter])[|flames| - 1] == finalLetter;
  }

  /** Ring lengths 6 down to 2 all divide 60. */
  lemma ModPeriod(x: nat, n: nat)
    requires 2 <= n <= 6
    ensures (x + 60) % n == x % n
  {
    if n == 2 {
    } else if n == 3 {
    } else if n == 4 {
    } else if n == 5 {
    } else {
    }
  }

  /** On a ring of at most six letters only the count modulo 60 matters. */
  lemma {:induction false} EliminationPeriodic(ring: seq<char>, cursor: nat, count: nat)
    requires 1 <= |ring| <= 6 && cursor < |ring| && 1 <= count
    ensures EliminationOrder(ring, cursor, count + 60) == EliminationOrder(ring, cursor, count)
    decreases |ring|
  {
    if |ring| > 1 {
      ModPeriod(cursor + count - 1, |ring|);
      var k := (cursor + count - 1) % |ring|;
      var rest := RemoveAt(ring, k);
      assert (cursor + (count + 60) - 1) % |ring| == k;
      EliminationPeriodic(rest, k % |rest|, count);
      assert EliminationOrder(ring, cursor, count) == [ring[k]] + EliminationOrder(rest, k % |rest|, count);
    }
  }

  // ---------------------------------------------------------------------
  // Step 4: FLAMES_MAP and the whole game
  // ---------------------------------------------------------------------

  /** FLAMES_MAP[letter]: defined for the six ring letters, undefined otherwise. */
  function FlamesMap(letter: char): (r: Option<Relationship>)
    ensures r.Some? <==> letter in Ring
  {
    match letter
    case 'F' => Some(Friends)
    case 'L' => Some(Lovers)
    case 'A' => Some(Affectionate)
    case 'M' => Some(Marriage)
    case 'E' => Some(Enemies)
    case 'S' => Some(Siblings)
    case _ => None
  }

  /** Distinct ring letters give distinct results, and every result is some letter's. */
  lemma FlamesMapBijective(rel: Relationship)
    ensures exists c :: c in Ring && FlamesMap(c) == Some(rel)
    ensures forall c, d :: c in Ring && d in Ring && FlamesMap(c) == FlamesMap(d) ==> c == d
  {
    match rel
    case Friends => assert FlamesMap(Ring[0]) == Some(rel);
    case Lovers => assert FlamesMap(Ring[1]) == Some(rel);
    case Affectionate => assert FlamesMap(Ring[2]) == Some(rel);
    case Marriage => assert FlamesMap(Ring[3]) == Some(rel);
    case Enemies => assert FlamesMap(Ring[4]) == Some(rel);
    case Siblings => assert FlamesMap(Ring[5]) == Some(rel);
  }

  /** The result of the game for two raw names. */
  function FlamesOf(name1: string, name2: string): Relationship
  {
    var count := LetterCount(Normalize(name1), Normalize(name2));
    if count == 0 then Friends
    else FlamesMap(Survivor(Ring, count)).value
  }

  /** calculateFlames: normalise, cross out, count, eliminate, look the survivor up. */
  method CalculateFlames(name1: string, name2: string) returns (result: Relationship)
    ensures result == FlamesOf(name1, name2)
  {
    var n1 := Normalize(name1);
    var n2 := Normalize(name2);
    var letters1, letters2 := CrossOutCommonLetters(n1, n2);
    var count := |letters1| + |letters2|;
    assert count == LetterCount(n1, n2);
    if count == 0 {
      return Friends;
    }
    ghost var removed;
    var finalLetter;
    finalLetter, removed := Eliminate(Ring, count);
    result := FlamesMap(finalLetter).value;
  }

  /** A count of zero (two anagrams, or two names without letters) gives Friends, without the ring. */
  lemma AnagramsAreFriends(name1: string, name2: string)
    requires multiset(Normalize(name1)) == multiset(Normalize(name2))
    ensures FlamesOf(name1, name2) == Friends
  {
    CountZeroIffAnagram(Normalize(name1), Normalize(name2));
  }

  lemma SelfIsFriends(name: string)
    ensures FlamesOf(name, name) == Friends
  {
    AnagramsAreFriends(name, name);
  }

  /** The game does not depend on the order of the two names. */
  lemma FlamesSymmetric(name1: string, name2: string)
    ensures FlamesOf(name1, name2) == FlamesOf(name2, name1)
  {
    CountSymmetric(Normalize(name1), Normalize(name2));
  }

  /** Changing the ASCII case of either name does not change the result. */
  lemma FlamesIgnoresCase(name1: string, name2: string, other1: string, other2: string)
    requires |name1| == |other1|
    requires forall i :: 0 <= i < |name1| ==> LowerChar(name1[i]) == LowerChar(other1[i])
    requires |name2| == |other2|
    requires forall i :: 0 <= i < |name2| ==> LowerChar(name2[i]) == LowerChar(other2[i])
    ensures FlamesOf(name1, name2) == FlamesOf(other1, other2)
  {
    NormalizeIgnoresCase(name1, other1);
    NormalizeIgnoresCase(name2, other2);
  }

  /** Inserting a non-letter into either name does not change the result. */
  lemma FlamesIgnoresNonLetters(name1: string, name2: string, k: nat, c: char)
    requires k <= |name1| && !IsLowerLetter(c) && !IsUpperLetter(c)
    ensures FlamesOf(name1[..k] + [c] + name1[k..], name2) == FlamesOf(name1, name2)
    ensures FlamesOf(name2, name1[..k] + [c] + name1[k..]) == FlamesOf(name2, name1)
  {
    NormalizeIgnoresNonLetters(name1, k, c);
  }

  /** `x % n` for small quotients, without nonlinear reasoning (for the worked examples). */
  lemma ModOf(x: nat, n: nat, r: nat)
    requires 0 < n && r < n
    requires x == r || x == r + n || x == r + 2 * n || x == r + 3 * n
    ensures x % n == r
  {
    if x == r + n {
      assert x == 1 * n + r;
    } else if x == r + 2 * n {
      assert x == 2 * n + r;
    } else if x == r + 3 * n {
      assert x == 3 * n + r;
    }
  }

  // The worked examples take the count, or the names, as a parameter fixed by
  // `requires` rather than as a literal: with literal arguments the verifier
  // evaluates the recursive definitions on constants eagerly, and the proof no
  // longer fits its resource budget. Each ring step is its own lemma for the
  // same reason.

  /** Count 7, ring "ME" from slot 0: 'M' goes first. */
  lemma SevenRing2(count: nat)
    requires count == 7
    ensures EliminationOrder("ME", 0, count) == "ME"
  {
    ModOf(0 + count - 1, |"ME"|, 0);
    assert RemoveAt("ME", 0) == "E";
    ModOf(0, |RemoveAt("ME", 0)|, 0);
    EliminationStep("ME", 0, count, 0);
    assert "ME"[0] == 'M' && ['M'] + "E" == "ME";
  }

  /** Count 7, ring "LME" from slot 0: 'L' goes first. */
  lemma SevenRing3(count: nat)
    requires count == 7
    ensures EliminationOrder("LME", 0, count) == "LME"
  {
    SevenRing2(count);
    ModOf(0 + count - 1, |"LME"|, 0);
    assert RemoveAt("LME", 0) == "ME";
    ModOf(0, |RemoveAt("LME", 0)|, 0);
    EliminationStep("LME", 0, count, 0);
    assert "LME"[0] == 'L' && ['L'] + "ME" == "LME";
  }

  /** Count 7, ring "LMES" from slot 1: 'S' goes first. */
  lemma SevenRing4(count: nat)
    requires count == 7
    ensures EliminationOrder("LMES", 1, count) == "SLME"
  {
    SevenRing3(count);
    ModOf(1 + count - 1, |"LMES"|, 3);
    assert RemoveAt("LMES", 3) == "LME";
    ModOf(3, |RemoveAt("LMES", 3)|, 0);
    EliminationStep("LMES", 1, count, 3);
    assert "LMES"[3] == 'S' && ['S'] + "LME" == "SLME";
  }

  /** Count 7, ring "LAMES" from slot 0: 'A' goes first. */
  lemma SevenRing5(count: nat)
    requires count == 7
    ensures EliminationOrder("LAMES", 0, count) == "ASLME"
  {
    SevenRing4(count);
    ModOf(0 + count - 1, |"LAMES"|, 1);
    assert RemoveAt("LAMES", 1) == "LMES";
    ModOf(1, |RemoveAt("LAMES", 1)|, 1);
    EliminationStep("LAMES", 0, count, 1);
    assert "LAMES"[1] == 'A' && ['A'] + "SLME" == "ASLME";
  }

  /** Count 7, ring "FLAMES" from slot 0: 'F' goes first. */
  lemma SevenRing6(count: nat)
    requires count == 7
    ensures EliminationOrder("FLAMES", 0, count) == "FASLME"
  {
    SevenRing5(count);
    ModOf(0 + count - 1, |"FLAMES"|, 0);
    assert RemoveAt("FLAMES", 0) == "LAMES";
    ModOf(0, |RemoveAt("FLAMES", 0)|, 0);
    EliminationStep("FLAMES", 0, count, 0);
    assert "FLAMES"[0] == 'F' && ['F'] + "ASLME" == "FASLME";
  }

  /** The ring for count 7 removes F, A, S, L, M and leaves E. */
  lemma OrderForSeven(count: nat)
    requires count == 7
    ensures EliminationOrder(Ring, 0, count) == "FASLME"
  {
    SevenRing6(count);
    assert Ring == "FLAMES";
  }

  /** Count 3, ring "FE" from slot 1: 'E' goes first. */
  lemma ThreeRing2(count: nat)
    requires count == 3
    ensures EliminationOrder("FE", 1, count) == "EF"
  {
    ModOf(1 + count - 1, |"FE"|, 1);
    assert RemoveAt("FE", 1) == "F";
    ModOf(1, |RemoveAt("FE", 1)|, 0);
    EliminationStep("FE", 1, count, 1);
    assert "FE"[1] == 'E' && ['E'] + "F" == "EF";
  }

  /** Count 3, ring "FLE" from slot 2: 'L' goes first. */
  lemma ThreeRing3(count: nat)
    requires count == 3
    ensures EliminationOrder("FLE", 2, count) == "LEF"
  {
    ThreeRing2(count);
    ModOf(2 + count - 1, |"FLE"|, 1);
    assert RemoveAt("FLE", 1) == "FE";
    ModOf(1, |RemoveAt("FLE", 1)|, 1);
    EliminationStep("FLE", 2, count, 1);
    assert "FLE"[1] == 'L' && ['L'] + "EF" == "LEF";
  }

  /** Count 3, ring "FLME" from slot 0: 'M' goes first. */
  lemma ThreeRing4(count: nat)
    requires count == 3
    ensures EliminationOrder("FLME", 0, count) == "MLEF"
  {
    ThreeRing3(count);
    ModOf(0 + count - 1, |"FLME"|, 2);
    assert RemoveAt("FLME", 2) == "FLE";
    ModOf(2, |RemoveAt("FLME", 2)|, 2);
    EliminationStep("FLME", 0, count, 2);
    assert "FLME"[2] == 'M' && ['M'] + "LEF" == "MLEF";
  }

  /** Count 3, ring "FLMES" from slot 2: 'S' goes first. */
  lemma ThreeRing5(count: nat)
    requires count == 3
    ensures EliminationOrder("FLMES", 2, count) == "SMLEF"
  {
    ThreeRing4(count);
    ModOf(2 + count - 1, |"FLMES"|, 4);
    assert RemoveAt("FLMES", 4) == "FLME";
    ModOf(4, |RemoveAt("FLMES", 4)|, 0);
    EliminationStep("FLMES", 2, count, 4);
    assert "FLMES"[4] == 'S' && ['S'] + "MLEF" == "SMLEF";
  }

  /** Count 3, ring "FLAMES" from slot 0: 'A' goes first. */
  lemma ThreeRing6(count: nat)
    requires count == 3
    ensures EliminationOrder("FLAMES", 0, count) == "ASMLEF"
  {
    ThreeRing5(count);
    ModOf(0 + count - 1, |"FLAMES"|, 2);
    assert RemoveAt("FLAMES", 2) == "FLMES";
    ModOf(2, |RemoveAt("FLAMES", 2)|, 2);
    EliminationStep("FLAMES", 0, count, 2);
    assert "FLAMES"[2] == 'A' && ['A'] + "SMLEF" == "ASMLEF";
  }

  /** The ring for count 3 removes A, S, M, L, E and leaves F. */
  lemma OrderForThree(count: nat)
    requires count == 3
    ensures EliminationOrder(Ring, 0, count) == "ASMLEF"
  {
    ThreeRing6(count);
    assert Ring == "FLAMES";
  }

  /** Crossing out "avid" against "sara" cancels the 'a' at position 1 of "sara" and nothing else. */
  lemma CancelAvidSara(n1: seq<char>, n2: seq<char>)
    requires n1 == "avid" && n2 == "sara"
    ensures Cancel(n1, n2) == ("vid", "sra")
  {
    assert forall i :: 0 <= i < |"vid"| ==> "vid"[i] !in "sra";
    CancelNothingShared("vid", "sra");
    assert n1[1..] == "vid";
    assert IndexOf(n2, 'a') == 1;
    assert RemoveAt(n2, 1) == "sra";
  }

  /** Crossing out "david" against "sara" cancels a single 'a'. */
  lemma CancelDavidSara(n1: seq<char>, n2: seq<char>)
    requires n1 == "david" && n2 == "sara"
    ensures Cancel(n1, n2) == ("dvid", "sra")
  {
    var tail := n1[1..];
    assert 'd' !in n2;
    CancelStep(n1, n2);
    assert Cancel(n1, n2) == (['d'] + Cancel(tail, n2).0, Cancel(tail, n2).1);
    assert tail == "avid";
    CancelAvidSara(tail, n2);
    assert ['d'] + "vid" == "dvid";
  }

  /** "David" and "Sara" normalise to their lower-case letters. */
  lemma NormalizeDavidSara(name1: string, name2: string)
    requires name1 == "David" && name2 == "Sara"
    ensures Normalize(name1) == "david" && Normalize(name2) == "sara"
  {
    assert ToLower(name1) == "david";
    assert ToLower(name2) == "sara";
    KeepLettersOfLetters("david");
    KeepLettersOfLetters("sara");
  }

  /** ("David", "Sara"): only one 'a' is shared, the count is 7 and the ring leaves E. */
  lemma DavidAndSara(name1: string, name2: string)
    requires name1 == "David" && name2 == "Sara"
    ensures LetterCount(Normalize(name1), Normalize(name2)) == 7
    ensures FlamesOf(name1, name2) == Enemies
  {
    NormalizeDavidSara(name1, name2);
    CancelDavidSara(Normalize(name1), Normalize(name2));
    var count := LetterCount(Normalize(name1), Normalize(name2));
    assert count == 7;
    OrderForSeven(count);
    assert Survivor(Ring, count) == 'E';
  }

  /** ("", "Bob"): nothing cancels, the count is 3 and the ring leaves F. */
  lemma EmptyAndBob(name1: string, name2: string)
    requires name1 == "" && name2 == "Bob"
    ensures Normalize(name1) == "" && Normalize(name2) == "bob"
    ensures LetterCount(Normalize(name1), Normalize(name2)) == 3
    ensures FlamesOf(name1, name2) == Friends
  {
    assert ToLower(name2) == "bob";
    KeepLettersOfLetters("bob");
    assert Cancel("", "bob") == ("", "bob");
    var count := LetterCount(Normalize(name1), Normalize(name2));
    assert count == 3;
    OrderForThree(count);
    assert Survivor(Ring, count) == 'F';
  }
}
