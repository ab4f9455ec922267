/**
 The string operations the answer checks are built from: lowercasing, finding the
 first occurrence of a letter, removing the letter at a position, and the
 letter-count (multiset) reading of "can be spelled from".

 Strings are sequences of characters; lowercasing maps the ASCII letters A-Z to
 a-z and leaves every other character alone.
 */
module Letters {
  import opened Wrappers

  /** True for the ASCII capital letters. */
  predicate IsUpper(c: char) {
    'A' <= c <= 'Z'
  }

  /** Lower case of one character. */
  function Lower(c: char): (d: char)
    ensures !IsUpper(d)
    ensures !IsUpper(c) ==> d == c
    ensures IsUpper(c) ==> d as int == c as int + 32
  {
    if IsUpper(c) then (c as int + 32) as char else c
  }

  /** A string with no capital letter. */
  predicate IsLowercase(s: string) {
    forall i :: 0 <= i < |s| ==> !IsUpper(s[i])
  }

  /**
   `s.lowercased()`: every character lowered in place. The result has no
   capital letter, and a string without capitals is left as it is.
   */
  function Lowercase(s: string): (r: string)
    ensures |r| == |s|
    ensures IsLowercase(r)
    ensures IsLowercase(s) ==> r == s
  {
    seq(|s|, i requires 0 <= i < |s| => Lower(s[i]))
  }

  /** Lowercasing twice is lowercasing once. */
  lemma LowercaseIdempotent(s: string)
    ensures Lowercase(Lowercase(s)) == Lowercase(s)
  {
  }

  /** Lowercasing a capitalised word lowers its first letter only. */
  lemma LowercaseCapitalised(c: char, s: string)
    requires IsUpper(c) && IsLowercase(s)
    ensures Lowercase([c] + s) == [Lower(c)] + s
  {
    var r := Lowercase([c] + s);
    assert r[0] == Lower(c);
    forall i | 1 <= i < |r| ensures r[i] == s[i - 1] {
      assert ([c] + s)[i] == s[i - 1];
    }
  }

  /**
   `s.firstIndex(of: c)`: the position of the leftmost occurrence of `c`, or
   nothing when `c` does not occur.
   */
  function FirstIndexOf(s: string, c: char): (r: Option<nat>)
    ensures r.None? <==> c !in s
    ensures r.Some? ==> r.value < |s| && s[r.value] == c && c !in s[..r.value]
  {
    if s == [] then None
    else if s[0] == c then Some(0)
    else match FirstIndexOf(s[1..], c)
      case None => None
      case Some(k) =>
        assert s[..k + 1] == [s[0]] + s[1..][..k];
        Some(k + 1)
  }

  /** `s.remove(at: i)`: the string without its character at position `i`. */
  function RemoveAt(s: string, i: nat): (r: string)
    requires i < |s|
    ensures |r| == |s| - 1
    ensures multiset(r) == multiset(s) - multiset{s[i]}
    ensures forall k :: 0 <= k < i ==> r[k] == s[k]
    ensures forall k :: i <= k < |r| ==> r[k] == s[k + 1]
  {
    assert s == s[..i] + [s[i]] + s[i + 1..];
    s[..i] + s[i + 1..]
  }

  /**
   `word` can be spelled from the letters of `base`: no letter occurs in
   `word` more often than in `base`.
   */
  predicate Derivable(word: string, base: string) {
    multiset(word) <= multiset(base)
  }

  /** Derivability read letter by letter. */
  lemma DerivableByCounts(word: string, base: string)
    ensures Derivable(word, base) <==> forall c :: multiset(word)[c] <= multiset(base)[c]
  {
  }

  /**
   One step of spelling `word` from `base`, letter by letter: `rest` holds the
   letters of `base` that `word[..i]` has not used up. The next letter can be
   used exactly when it is still in `rest`, and then `rest` loses one of it;
   when it is not in `rest`, the whole word cannot be spelled from `base`.
   */
  lemma {:induction false} ConsumeLetter(base: string, word: string, i: nat, rest: string)
    requires i < |word|
    requires Derivable(word[..i], base)
    requires multiset(rest) == multiset(base) - multiset(word[..i])
    ensures word[i] in rest <==> Derivable(word[..i + 1], base)
    ensures word[i] in rest ==>
      multiset(rest) - multiset{word[i]} == multiset(base) - multiset(word[..i + 1])
    ensures word[i] !in rest ==> !Derivable(word, base)
  {
    var c := word[i];
    var b, u := multiset(base), multiset(word[..i]);
    assert word[..i + 1] == word[..i] + [c];
    assert multiset(word[..i + 1]) == u + multiset{c};
    assert c in rest <==> multiset(rest)[c] > 0;
    assert multiset(rest)[c] == b[c] - u[c];
    if c in rest {
      forall d ensures (u + multiset{c})[d] <= b[d] {
        if d != c {
          assert (u + multiset{c})[d] == u[d];
        }
      }
    } else {
      assert (u + multiset{c})[c] > b[c];
      if Derivable(word, base) {
        PrefixDerivable(word, base, i + 1);
      }
    }
  }

  /** A word spelled from `base` is no longer than `base`. */
  lemma DerivableLength(word: string, base: string)
    ensures Derivable(word, base) ==> |word| <= |base|
  {
    var a, b := multiset(word), multiset(base);
    if a <= b {
      assert b == a + (b - a);
      assert |b| == |a| + |b - a|;
    }
  }

  /** A word that is derivable keeps being so when letters are taken from its end. */
  lemma {:induction false} PrefixDerivable(word: string, base: string, n: nat)
    requires n <= |word|
    requires Derivable(word, base)
    ensures Derivable(word[..n], base)
  {
    assert word == word[..n] + word[n..];
    assert multiset(word) == multiset(word[..n]) + multiset(word[n..]);
  }
}
