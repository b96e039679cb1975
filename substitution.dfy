/**
 * The monoalphabetic substitution cipher of substitution-cipher/index.js.
 *
 * Every character of a text is looked up in the standard alphabet A-Z (then
 * a-z) and replaced by the character at the same position of a custom
 * alphabet (or of its lower-case form); anything else passes through.
 * Decryption looks the character up in the custom alphabet instead.  The
 * custom alphabet, which the program reads from its environment with a
 * default, is an explicit parameter here.
 */
module SubstitutionCipher {

  /** The standard upper-case English alphabet, "ABCDEFGHIJKLMNOPQRSTUVWXYZ"
      (AlphabetsSpelledOut). */
  const AlphabetUpper: string := LetterRun('A')

  /** The standard lower-case alphabet, the lower-case form of AlphabetUpper
      (AlphabetsSpelledOut). */
  const AlphabetLower: string := LetterRun('a')

  /** The 26 consecutive characters that start at `first`. */
  function LetterRun(first: char): (r: string)
    requires first as int + 26 <= 0xD800
    ensures |r| == 26
    ensures forall k :: 0 <= k < 26 ==> r[k] as int == first as int + k
  {
    seq(26, k requires 0 <= k < 26 => (first as int + k) as char)
  }

  /** The substitution alphabet used when the environment supplies none. */
  const DefaultCustomUpper: string := "QWERTYUIOPASDFGHJKLZXCVBNM"

  predicate IsUpper(c: char) { 'A' <= c <= 'Z' }

  predicate IsLower(c: char) { 'a' <= c <= 'z' }

  /** String.prototype.toLowerCase on one character, restricted to ASCII. */
  function LowerChar(c: char): (r: char)
    ensures IsUpper(c) ==> IsLower(r) && r as int == c as int + 32
    ensures !IsUpper(c) ==> r == c
  {
    if IsUpper(c) then (c as int + 32) as char else c
  }

  /** String.prototype.toLowerCase, restricted to ASCII. */
  function ToLower(s: string): (r: string)
    ensures |r| == |s|
    ensures forall i :: 0 <= i < |s| ==> r[i] == LowerChar(s[i])
  {
    if s == [] then [] else [LowerChar(s[0])] + ToLower(s[1..])
  }

  /** String.prototype.indexOf for a one-character argument: the first
      position of `c` in `s`, or -1 when `c` does not occur. */
  function IndexOf(s: string, c: char): (r: int)
    ensures -1 <= r < |s|
    ensures r >= 0 ==> s[r] == c && forall j :: 0 <= j < r ==> s[j] != c
    ensures r < 0 <==> c !in s
  {
    if s == [] then -1
    else if s[0] == c then 0
    else
      var k := IndexOf(s[1..], c);
      if k < 0 then -1 else k + 1
  }

  /** `s[i]` as `join('')` renders it: the character, or nothing when the
      index is past the end (JavaScript yields `undefined`, joined as ""). */
  function At(s: string, i: nat): (r: string)
    ensures i < |s| ==> r == [s[i]]
    ensures i >= |s| ==> r == []
  {
    if i < |s| then [s[i]] else []
  }

  /** The substitute of one character (the callback of `encryptText`). */
  function EncryptChar(custom: string, c: char): (r: string)
    ensures IsUpper(c) ==> r == At(custom, c as int - 'A' as int)
    ensures IsLower(c) ==> r == At(ToLower(custom), c as int - 'a' as int)
    ensures !IsUpper(c) && !IsLower(c) ==> r == [c]
    ensures |r| <= 1 && (|custom| >= 26 ==> |r| == 1)
  {
    UpperIndex(c);
    LowerIndex(c);
    var i := IndexOf(AlphabetUpper, c);
    if i >= 0 then At(custom, i)
    else
      var j := IndexOf(AlphabetLower, c);
      if j >= 0 then At(ToLower(custom), j) else [c]
  }

  /** The original of one character (the callback of `decryptText`). */
  function DecryptChar(custom: string, c: char): (r: string)
    ensures c in custom ==> r == At(AlphabetUpper, IndexOf(custom, c))
    ensures c !in custom && c in ToLower(custom) ==>
      r == At(AlphabetLower, IndexOf(ToLower(custom), c))
    ensures c !in custom && c !in ToLower(custom) ==> r == [c]
    ensures |r| <= 1 && (|custom| <= 26 ==> |r| == 1)
  {
    var i := IndexOf(custom, c);
    if i >= 0 then At(AlphabetUpper, i)
    else
      var j := IndexOf(ToLower(custom), c);
      if j >= 0 then At(AlphabetLower, j) else [c]
  }

  /** encryptText: substitute every character of `text` and join the results. */
  function EncryptText(custom: string, text: string): (r: string)
    ensures |r| <= |text|
    ensures |custom| >= 26 ==> |r| == |text|
  {
    if text == [] then [] else EncryptChar(custom, text[0]) + EncryptText(custom, text[1..])
  }

  /** decryptText: restore every character of `text` and join the results. */
  function DecryptText(custom: string, text: string): (r: string)
    ensures |r| <= |text|
    ensures |custom| <= 26 ==> |r| == |text|
  {
    if text == [] then [] else DecryptChar(custom, text[0]) + DecryptText(custom, text[1..])
  }

  /** The custom alphabet is a rearrangement of the 26 letters A-Z. */
  predicate IsAlphabetPermutation(custom: string) {
    multiset(custom) == multiset(AlphabetUpper)
  }

  predicate Distinct(s: string) {
    forall i, j :: 0 <= i < j < |s| ==> s[i] != s[j]
  }

  // ---------------------------------------------------------------------
  // Facts about the standard alphabets

  lemma AlphabetUpperAt()
    ensures |AlphabetUpper| == 26
    ensures forall k :: 0 <= k < 26 ==> AlphabetUpper[k] as int == 'A' as int + k
  {
  }

  lemma AlphabetLowerAt()
    ensures |AlphabetLower| == 26
    ensures forall k :: 0 <= k < 26 ==> AlphabetLower[k] as int == 'a' as int + k
  {
  }

  /** The alphabets are the literals of the program, and the lower-case one
      is the lower-case form of the upper-case one. */
  lemma AlphabetsSpelledOut()
    ensures AlphabetUpper == "ABCDEFGHIJKLMNOPQRSTUVWXYZ"
    ensures AlphabetLower == "abcdefghijklmnopqrstuvwxyz"
    ensures AlphabetLower == ToLower(AlphabetUpper)
  {
    AlphabetUpperSpelledOut();
    AlphabetLowerSpelledOut();
    LowerAlphabetIsLowered();
  }

  lemma LowerAlphabetIsLowered()
    ensures AlphabetLower == ToLower(AlphabetUpper)
  {
    AlphabetUpperAt();
    AlphabetLowerAt();
    var low := ToLower(AlphabetUpper);
    forall k | 0 <= k < 26 ensures AlphabetLower[k] == low[k] {
      assert low[k] == LowerChar(AlphabetUpper[k]);
    }
  }

  lemma AlphabetUpperSpelledOut()
    ensures AlphabetUpper == "ABCDEFGHIJKLMNOPQRSTUVWXYZ"
  {
    var lit := "ABCDEFGHIJKLMNOPQRSTUVWXYZ";
    AlphabetUpperAt();
    forall k | 0 <= k < 26 ensures AlphabetUpper[k] == lit[k] {
    }
  }

  lemma AlphabetLowerSpelledOut()
    ensures AlphabetLower == "abcdefghijklmnopqrstuvwxyz"
  {
    var lit := "abcdefghijklmnopqrstuvwxyz";
    AlphabetLowerAt();
    forall k | 0 <= k < 26 ensures AlphabetLower[k] == lit[k] {
    }
  }

  /** The position of a character in A-Z is its distance from 'A'. */
  lemma UpperIndex(c: char)
    ensures IndexOf(AlphabetUpper, c) == if IsUpper(c) then c as int - 'A' as int else -1
  {
    AlphabetUpperAt();
    if IsUpper(c) {
      var k := c as int - 'A' as int;
      assert AlphabetUpper[k] == c;
    } else {
      assert c !in AlphabetUpper;
    }
  }

  /** The position of a character in a-z is its distance from 'a'. */
  lemma LowerIndex(c: char)
    ensures IndexOf(AlphabetLower, c) == if IsLower(c) then c as int - 'a' as int else -1
  {
    AlphabetLowerAt();
    if IsLower(c) {
      var k := c as int - 'a' as int;
      assert AlphabetLower[k] == c;
    } else {
      assert c !in AlphabetLower;
    }
  }

  // ---------------------------------------------------------------------
  // Counting and permutations

  lemma {:induction false} DistinctCount(s: string, x: char)
    requires Distinct(s)
    ensures multiset(s)[x] <= 1
  {
    if s != [] {
      assert s == [s[0]] + s[1..];
      assert Distinct(s[1..]) by {
        forall i, j | 0 <= i < j < |s| - 1 ensures s[1..][i] != s[1..][j] {
          assert s[1..][i] == s[i + 1] && s[1..][j] == s[j + 1];
        }
      }
      DistinctCount(s[1..], x);
      if x == s[0] {
        assert x !in s[1..] by {
          forall i | 0 <= i < |s| - 1 ensures s[1..][i] != x {
            assert s[1..][i] == s[i + 1];
          }
        }
      }
    }
  }

  lemma DuplicateCount(s: string, i: nat, j: nat)
    requires i < j < |s| && s[i] == s[j]
    ensures multiset(s)[s[i]] >= 2
  {
    assert s == s[..j] + s[j..];
    assert s[i] == s[..j][i];
    assert s[j] == s[j..][0];
  }

  /** Removing position k from a sequence keeps every other value. */
  lemma RemoveAt(s: string, k: nat)
    requires k < |s|
    ensures forall x :: x in s && x != s[k] ==> x in s[..k] + s[k + 1..]
  {
    var rest := s[..k] + s[k + 1..];
    forall x | x in s && x != s[k] ensures x in rest {
      var m :| 0 <= m < |s| && s[m] == x;
      if m < k {
        assert rest[m] == x;
      } else {
        assert rest[m - 1] == x;
      }
    }
  }

  /** A sequence as long as a repetition-free one, and holding each of its
      elements, is a rearrangement of it. */
  lemma {:induction false} CoverIsPermutation(s: string, t: string)
    requires Distinct(t) && |s| == |t|
    requires forall i :: 0 <= i < |t| ==> t[i] in s
    ensures multiset(s) == multiset(t)
    decreases |t|
  {
    if t != [] {
      var k :| 0 <= k < |s| && s[k] == t[0];
      var rest := s[..k] + s[k + 1..];
      RemoveAt(s, k);
      TailDistinct(t);
      var tail := t[1..];
      forall i | 0 <= i < |tail| ensures tail[i] in rest {
        assert tail[i] == t[i + 1] && t[i + 1] != t[0];
      }
      CoverIsPermutation(rest, tail);
      MultisetSplit(t, s, k);
    }
  }

  lemma TailDistinct(s: string)
    requires Distinct(s) && s != []
    ensures Distinct(s[1..])
  {
    var tail := s[1..];
    forall i, j | 0 <= i < j < |tail| ensures tail[i] != tail[j] {
      assert tail[i] == s[i + 1] && tail[j] == s[j + 1];
    }
  }

  lemma MultisetSplit(s: string, t: string, k: nat)
    requires s != [] && k < |t| && t[k] == s[0]
    requires multiset(s[1..]) == multiset(t[..k] + t[k + 1..])
    ensures multiset(s) == multiset(t)
  {
    assert s == [s[0]] + s[1..];
    assert t == t[..k] + [t[k]] + t[k + 1..];
  }

  /** What being a permutation of A-Z tells about the custom alphabet. */
  lemma PermutationFacts(custom: string)
    requires IsAlphabetPermutation(custom)
    ensures |custom| == 26
    ensures forall i :: 0 <= i < |custom| ==> IsUpper(custom[i])
    ensures forall c :: IsUpper(c) ==> c in custom
    ensures Distinct(custom)
  {
    AlphabetUpperAt();
    assert |custom| == |multiset(custom)| == |multiset(AlphabetUpper)| == 26;
    forall i | 0 <= i < |custom| ensures IsUpper(custom[i]) {
      assert custom[i] in multiset(custom);
      assert custom[i] in AlphabetUpper;
    }
    forall c | IsUpper(c) ensures c in custom {
      assert AlphabetUpper[c as int - 'A' as int] == c;
      assert c in multiset(AlphabetUpper);
    }
    assert Distinct(AlphabetUpper);
    forall i, j | 0 <= i < j < |custom| ensures custom[i] != custom[j] {
      if custom[i] == custom[j] {
        DuplicateCount(custom, i, j);
        DistinctCount(AlphabetUpper, custom[i]);
        assert false;
      }
    }
  }

  /** The lower-case form of a permutation of A-Z is a permutation of a-z. */
  lemma LowerPermutationFacts(custom: string)
    requires IsAlphabetPermutation(custom)
    ensures forall i :: 0 <= i < |custom| ==> IsLower(ToLower(custom)[i])
    ensures forall c :: IsLower(c) ==> c in ToLower(custom)
    ensures Distinct(ToLower(custom))
  {
    PermutationFacts(custom);
    LowerCover(custom);
    LowerDistinct(custom);
  }

  lemma LowerDistinct(custom: string)
    requires Distinct(custom)
    requires forall i :: 0 <= i < |custom| ==> IsUpper(custom[i])
    ensures forall i :: 0 <= i < |custom| ==> IsLower(ToLower(custom)[i])
    ensures Distinct(ToLower(custom))
  {
    var low := ToLower(custom);
    forall i | 0 <= i < |low| ensures IsLower(low[i]) {
      assert low[i] == LowerChar(custom[i]);
    }
    forall i, j | 0 <= i < j < |low| ensures low[i] != low[j] {
      assert custom[i] != custom[j];
      assert low[i] as int == custom[i] as int + 32;
      assert low[j] as int == custom[j] as int + 32;
    }
  }

  lemma LowerCover(custom: string)
    requires forall c :: IsUpper(c) ==> c in custom
    ensures forall c :: IsLower(c) ==> c in ToLower(custom)
  {
    var low := ToLower(custom);
    forall c | IsLower(c) ensures c in low {
      var u := (c as int - 32) as char;
      assert IsUpper(u) && u in custom;
      var i :| 0 <= i < |custom| && custom[i] == u;
      assert low[i] == c;
    }
  }

  lemma IndexOfDistinct(s: string, i: nat)
    requires Distinct(s) && i < |s|
    ensures IndexOf(s, s[i]) == i
  {
  }

  /** The default substitution alphabet is a permutation of A-Z. */
  lemma DefaultIsPermutation()
    ensures IsAlphabetPermutation(DefaultCustomUpper)
  {
    DefaultCovers();
    AlphabetUpperAt();
    AlphabetDistinct();
    forall k | 0 <= k < |AlphabetUpper| ensures AlphabetUpper[k] in DefaultCustomUpper {
      assert IsUpper(AlphabetUpper[k]);
    }
    CoverIsPermutation(DefaultCustomUpper, AlphabetUpper);
  }

  /** Every letter has its place in the default alphabet. */
  lemma DefaultCovers()
    ensures |DefaultCustomUpper| == 26
    ensures forall c :: IsUpper(c) ==> c in DefaultCustomUpper
  {
  }

  lemma AlphabetDistinct()
    ensures Distinct(AlphabetUpper)
  {
    AlphabetUpperAt();
  }

  // ---------------------------------------------------------------------
  // Properties of encryptText and decryptText

  /** encryptText distributes over concatenation. */
  lemma {:induction false} EncryptTextAppend(custom: string, a: string, b: string)
    ensures EncryptText(custom, a + b) == EncryptText(custom, a) + EncryptText(custom, b)
  {
    if a == [] {
      assert a + b == b;
    } else {
      assert (a + b)[0] == a[0] && (a + b)[1..] == a[1..] + b;
      EncryptTextAppend(custom, a[1..], b);
      calc {
        EncryptText(custom, a + b);
        EncryptChar(custom, a[0]) + EncryptText(custom, a[1..] + b);
        EncryptChar(custom, a[0]) + (EncryptText(custom, a[1..]) + EncryptText(custom, b));
      }
    }
  }

  /** decryptText distributes over concatenation. */
  lemma {:induction false} DecryptTextAppend(custom: string, a: string, b: string)
    ensures DecryptText(custom, a + b) == DecryptText(custom, a) + DecryptText(custom, b)
  {
    if a == [] {
      assert a + b == b;
    } else {
      assert (a + b)[0] == a[0] && (a + b)[1..] == a[1..] + b;
      DecryptTextAppend(custom, a[1..], b);
      calc {
        DecryptText(custom, a + b);
        DecryptChar(custom, a[0]) + DecryptText(custom, a[1..] + b);
        DecryptChar(custom, a[0]) + (DecryptText(custom, a[1..]) + DecryptText(custom, b));
      }
    }
  }

  /** With a custom alphabet of at least 26 characters, position k of the
      ciphertext is the substitute of position k of the text: an upper-case
      letter at alphabet index i becomes custom[i], a lower-case one the
      lower-case form of custom[i], anything else stays. */
  lemma EncryptTextAt(custom: string, text: string, k: nat)
    requires |custom| >= 26 && k < |text|
    ensures |EncryptText(custom, text)| == |text|
    ensures IsUpper(text[k]) ==>
      EncryptText(custom, text)[k] == custom[text[k] as int - 'A' as int]
    ensures IsLower(text[k]) ==>
      EncryptText(custom, text)[k] == LowerChar(custom[text[k] as int - 'a' as int])
    ensures !IsUpper(text[k]) && !IsLower(text[k]) ==> EncryptText(custom, text)[k] == text[k]
  {
    EncryptTextIndex(custom, text, k);
  }

  lemma {:induction false} EncryptTextIndex(custom: string, text: string, k: nat)
    requires |custom| >= 26 && k < |text|
    ensures EncryptText(custom, text)[k] == EncryptChar(custom, text[k])[0]
    decreases k
  {
    if k > 0 {
      EncryptTextIndex(custom, text[1..], k - 1);
    }
  }

  /** With a custom alphabet of at most 26 characters, position k of the
      plaintext is the standard letter at the position where text[k] first
      occurs in the custom alphabet (or its lower-case form); a character
      occurring in neither stays. */
  lemma DecryptTextAt(custom: string, text: string, k: nat)
    requires |custom| <= 26 && k < |text|
    ensures |DecryptText(custom, text)| == |text|
    ensures text[k] in custom ==>
      DecryptText(custom, text)[k] == AlphabetUpper[IndexOf(custom, text[k])]
    ensures text[k] !in custom && text[k] in ToLower(custom) ==>
      DecryptText(custom, text)[k] == AlphabetLower[IndexOf(ToLower(custom), text[k])]
    ensures text[k] !in custom && text[k] !in ToLower(custom) ==>
      DecryptText(custom, text)[k] == text[k]
  {
    AlphabetUpperAt();
    AlphabetLowerAt();
    DecryptTextIndex(custom, text, k);
  }

  lemma {:induction false} DecryptTextIndex(custom: string, text: string, k: nat)
    requires |custom| <= 26 && k < |text|
    ensures DecryptText(custom, text)[k] == DecryptChar(custom, text[k])[0]
    decreases k
  {
    if k > 0 {
      DecryptTextIndex(custom, text[1..], k - 1);
    }
  }

  /** Under a permutation of A-Z, decryption undoes encryption of one character. */
  lemma DecryptEncryptChar(custom: string, c: char)
    requires IsAlphabetPermutation(custom)
    ensures |EncryptChar(custom, c)| == 1
    ensures DecryptChar(custom, EncryptChar(custom, c)[0]) == [c]
  {
    PermutationFacts(custom);
    if IsUpper(c) {
      var i := c as int - 'A' as int;
      assert EncryptChar(custom, c) == [custom[i]];
      IndexOfDistinct(custom, i);
      AlphabetUpperAt();
      assert DecryptChar(custom, custom[i]) == [AlphabetUpper[i]];
    } else if IsLower(c) {
      DecryptEncryptLower(custom, c);
    } else {
      assert c !in custom;
      assert c !in ToLower(custom);
    }
  }

  lemma DecryptEncryptLower(custom: string, c: char)
    requires IsAlphabetPermutation(custom) && IsLower(c)
    ensures |EncryptChar(custom, c)| == 1
    ensures DecryptChar(custom, EncryptChar(custom, c)[0]) == [c]
  {
    PermutationFacts(custom);
    LowerPermutationFacts(custom);
    var low := ToLower(custom);
    var i := c as int - 'a' as int;
    assert EncryptChar(custom, c) == [low[i]];
    IndexOfDistinct(low, i);
    assert low[i] !in custom by {
      assert IsLower(low[i]);
    }
    AlphabetLowerAt();
    assert DecryptChar(custom, low[i]) == [AlphabetLower[i]];
  }

  /** Under a permutation of A-Z, encryption undoes decryption of one character. */
  lemma EncryptDecryptChar(custom: string, c: char)
    requires IsAlphabetPermutation(custom)
    ensures |DecryptChar(custom, c)| == 1
    ensures EncryptChar(custom, DecryptChar(custom, c)[0]) == [c]
  {
    PermutationFacts(custom);
    LowerPermutationFacts(custom);
    AlphabetUpperAt();
    AlphabetLowerAt();
    var low := ToLower(custom);
    if c in custom {
      var i := IndexOf(custom, c);
      assert IsUpper(AlphabetUpper[i]);
    } else if c in low {
      var j := IndexOf(low, c);
      assert IsLower(AlphabetLower[j]);
    } else {
      assert !IsUpper(c);
      assert !IsLower(c);
    }
  }

  /** Round trip: decryptText(encryptText(s)) == s for a permutation of A-Z. */
  lemma {:induction false} DecryptEncrypt(custom: string, text: string)
    requires IsAlphabetPermutation(custom)
    ensures DecryptText(custom, EncryptText(custom, text)) == text
  {
    if text != [] {
      var head := EncryptChar(custom, text[0]);
      DecryptEncryptChar(custom, text[0]);
      DecryptTextAppend(custom, head, EncryptText(custom, text[1..]));
      assert DecryptText(custom, head) == DecryptChar(custom, head[0]) by {
        assert head == [head[0]];
      }
      DecryptEncrypt(custom, text[1..]);
      assert text == [text[0]] + text[1..];
    }
  }

  /** Round trip: encryptText(decryptText(s)) == s for a permutation of A-Z. */
  lemma {:induction false} EncryptDecrypt(custom: string, text: string)
    requires IsAlphabetPermutation(custom)
    ensures EncryptText(custom, DecryptText(custom, text)) == text
  {
    if text != [] {
      var head := DecryptChar(custom, text[0]);
      EncryptDecryptChar(custom, text[0]);
      EncryptTextAppend(custom, head, DecryptText(custom, text[1..]));
      assert EncryptText(custom, head) == EncryptChar(custom, head[0]) by {
        assert head == [head[0]];
      }
      EncryptDecrypt(custom, text[1..]);
      assert text == [text[0]] + text[1..];
    }
  }

  /** Under a permutation of A-Z, encryption keeps the case of every letter
      and leaves every non-letter where it is. */
  lemma EncryptPreservesCase(custom: string, text: string, k: nat)
    requires IsAlphabetPermutation(custom) && k < |text|
    ensures |EncryptText(custom, text)| == |text|
    ensures IsUpper(EncryptText(custom, text)[k]) <==> IsUpper(text[k])
    ensures IsLower(EncryptText(custom, text)[k]) <==> IsLower(text[k])
    ensures !IsUpper(text[k]) && !IsLower(text[k]) ==> EncryptText(custom, text)[k] == text[k]
  {
    PermutationFacts(custom);
    EncryptTextAt(custom, text, k);
  }

  /** Under a permutation of A-Z, decryption keeps the case of every letter
      and leaves every non-letter where it is. */
  lemma DecryptPreservesCase(custom: string, text: string, k: nat)
    requires IsAlphabetPermutation(custom) && k < |text|
    ensures |DecryptText(custom, text)| == |text|
    ensures IsUpper(DecryptText(custom, text)[k]) <==> IsUpper(text[k])
    ensures IsLower(DecryptText(custom, text)[k]) <==> IsLower(text[k])
    ensures !IsUpper(text[k]) && !IsLower(text[k]) ==> DecryptText(custom, text)[k] == text[k]
  {
    PermutationFacts(custom);
    LowerPermutationFacts(custom);
    AlphabetUpperAt();
    AlphabetLowerAt();
    DecryptTextAt(custom, text, k);
    var c := text[k];
    if c in custom {
      assert IsUpper(c);
    } else if c in ToLower(custom) {
      var j := IndexOf(ToLower(custom), c);
      assert IsLower(c);
    } else {
      assert !IsUpper(c) && !IsLower(c);
    }
  }

}
