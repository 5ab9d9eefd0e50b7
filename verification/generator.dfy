/** The password generator of internal/security/generator.go.

    The secure random source (crypto/rand.Int) is an oracle: a sequence of
    draws, the k-th of which is what the source answers when asked for the
    index of the k-th character. */
module Generator {
  import opened Wrappers

  const CharUpper: string := "ABCDEFGHIJKLMNOPQRSTUVWXYZ"
  const CharLower: string := "abcdefghijklmnopqrstuvwxyz"
  const CharDigits: string := "0123456789"
  const CharSymbols: string := "~!@#$%^&*()_+`-={}|[]\\:\"<>?,./"

  /** One answer of the secure random source: an index, or a failure. */
  datatype Draw = Index(value: nat) | Failure

  /** The two errors the generator reports: a bad length (or empty alphabet),
      and a failure of the random source. */
  datatype GenError = InvalidInput | EntropyFailure

  /** Go's `(string, error)` pair: a nil error is None. */
  datatype Generated = Generated(password: string, err: Option<GenError>)

  /** The random source keeps its promise: every index it returns lies in
      [0, bound), the range asked of crypto/rand.Int. */
  ghost predicate ValidEntropy(entropy: seq<Draw>, bound: nat) {
    forall k :: 0 <= k < |entropy| && entropy[k].Index? ==> entropy[k].value < bound
  }

  /** The source answers the first n requests with an index, without failing
      and without running out. */
  predicate Supplies(entropy: seq<Draw>, n: nat) {
    n <= |entropy| && forall k :: 0 <= k < n ==> entropy[k].Index?
  }

  predicate IsUpper(c: char) { 'A' <= c <= 'Z' }
  predicate IsLower(c: char) { 'a' <= c <= 'z' }
  predicate IsDigit(c: char) { '0' <= c <= '9' }
  predicate IsAlnum(c: char) { IsUpper(c) || IsLower(c) || IsDigit(c) }

  /** No character occurs twice. */
  predicate Distinct(s: string) {
    forall i, j :: 0 <= i < j < |s| ==> s[i] != s[j]
  }

  /** The character set of one call: letters and digits always, symbols on
      request. It is never empty, so only the length can be invalid. */
  function Alphabet(includeSymbols: bool): (alphabet: string)
    ensures |alphabet| == if includeSymbols then 92 else 62
    ensures forall c :: c in alphabet <==> IsAlnum(c) || (includeSymbols && c in CharSymbols)
  {
    BaseClassesAreAlnum();
    SymbolsAreNotAlnum();
    AlnumInBaseClasses();
    var base := CharUpper + CharLower + CharDigits;
    if includeSymbols then base + CharSymbols else base
  }

  lemma BaseClassesAreAlnum()
    ensures forall c :: c in CharUpper + CharLower + CharDigits ==> IsAlnum(c)
  {
    assert forall i :: 0 <= i < |CharUpper| ==> IsUpper(CharUpper[i]);
    assert forall i :: 0 <= i < |CharLower| ==> IsLower(CharLower[i]);
    assert forall i :: 0 <= i < |CharDigits| ==> IsDigit(CharDigits[i]);
  }

  lemma SymbolsAreNotAlnum()
    ensures forall c :: c in CharSymbols ==> !IsAlnum(c)
  {
    assert forall i :: 0 <= i < |CharSymbols| ==> !IsAlnum(CharSymbols[i]);
  }

  lemma AlnumInBaseClasses()
    ensures forall c :: IsAlnum(c) ==> c in CharUpper + CharLower + CharDigits
  {
  }

  /** Asking for symbols appends the symbol class to the letters-and-digits
      alphabet. */
  lemma SymbolsExtendAlphabet()
    ensures Alphabet(true) == Alphabet(false) + CharSymbols
    ensures Alphabet(false) == Alphabet(true)[..62]
  {
  }

  /** Every symbol is available with symbols and unavailable without them, so
      the alphabet with symbols is a strict superset of the one without. */
  lemma SymbolsOnlyOnRequest()
    ensures forall c :: c in CharSymbols ==> c in Alphabet(true) && c !in Alphabet(false)
    ensures forall c :: c in Alphabet(false) ==> c in Alphabet(true)
    ensures exists c :: c in Alphabet(true) && c !in Alphabet(false)
  {
    SymbolsAreNotAlnum();
    assert '~' in CharSymbols;
  }

  predicate Ascending(s: string) {
    forall i :: 0 <= i < |s| - 1 ==> s[i] < s[i + 1]
  }

  lemma {:induction false} AscendingIsDistinct(s: string)
    requires Ascending(s)
    ensures Distinct(s)
  {
    forall i, j | 0 <= i < j < |s|
      ensures s[i] < s[j]
    {
      AscendingBetween(s, i, j);
    }
  }

  lemma {:induction false} AscendingBetween(s: string, i: int, j: int)
    requires Ascending(s)
    requires 0 <= i < j < |s|
    ensures s[i] < s[j]
    decreases j - i
  {
    if j > i + 1 {
      AscendingBetween(s, i + 1, j);
    }
  }

  /** Two duplicate-free strings with no character in common concatenate to
      a duplicate-free string. */
  lemma {:induction false} DistinctConcat(a: string, b: string)
    requires Distinct(a) && Distinct(b)
    requires forall c :: c in a ==> c !in b
    ensures Distinct(a + b)
  {
    forall i, j | 0 <= i < j < |a + b|
      ensures (a + b)[i] != (a + b)[j]
    {
      if i < |a| && j >= |a| {
        assert (a + b)[i] == a[i] && a[i] in a;
        assert (a + b)[j] == b[j - |a|] && b[j - |a|] in b;
      }
    }
  }

  lemma ClassesAreDistinct()
    ensures Distinct(CharUpper) && Distinct(CharLower) && Distinct(CharDigits) && Distinct(CharSymbols)
  {
    assert Ascending(CharUpper) && Ascending(CharLower) && Ascending(CharDigits);
    AscendingIsDistinct(CharUpper);
    AscendingIsDistinct(CharLower);
    AscendingIsDistinct(CharDigits);
  }

  lemma ClassesAreDisjoint()
    ensures forall c :: c in CharUpper ==> c !in CharLower
    ensures forall c :: c in CharUpper + CharLower ==> c !in CharDigits
    ensures forall c :: c in CharUpper + CharLower + CharDigits ==> c !in CharSymbols
  {
    assert forall i :: 0 <= i < |CharUpper| ==> IsUpper(CharUpper[i]);
    assert forall i :: 0 <= i < |CharLower| ==> IsLower(CharLower[i]);
    assert forall i :: 0 <= i < |CharDigits| ==> IsDigit(CharDigits[i]);
    BaseClassesAreAlnum();
    SymbolsAreNotAlnum();
  }

  /** No character appears twice in an alphabet, so each index names a
      different character and no character is favoured over another. */
  lemma AlphabetIsDistinct(includeSymbols: bool)
    ensures Distinct(Alphabet(includeSymbols))
  {
    ClassesAreDistinct();
    ClassesAreDisjoint();
    DistinctConcat(CharUpper, CharLower);
    DistinctConcat(CharUpper + CharLower, CharDigits);
    if includeSymbols {
      DistinctConcat(CharUpper + CharLower + CharDigits, CharSymbols);
    }
  }

  /** The first n characters of a password, the k-th being the alphabet's
      character at the k-th drawn index; None when the source fails or runs
      out before n indices were drawn. */
  function Fill(alphabet: string, entropy: seq<Draw>, n: nat): (r: Option<string>)
    requires ValidEntropy(entropy, |alphabet|)
    ensures r.Some? <==> Supplies(entropy, n)
    ensures r.Some? ==> |r.value| == n
    ensures r.Some? ==> forall k :: 0 <= k < n ==> r.value[k] == alphabet[entropy[k].value]
  {
    if n == 0 then Some([])
    else
      match Fill(alphabet, entropy, n - 1)
      case None => None
      case Some(prefix) =>
        if n - 1 < |entropy| && entropy[n - 1].Index? then
          Some(prefix + [alphabet[entropy[n - 1].value]])
        else
          None
  }

  /** GeneratePassword: a password of the requested length drawn from the
      alphabet, or an error with the empty string. */
  function GeneratePassword(length: int, includeSymbols: bool, entropy: seq<Draw>): (g: Generated)
    requires ValidEntropy(entropy, |Alphabet(includeSymbols)|)
    ensures g.err == Some(InvalidInput) <==> length <= 0
    ensures g.err == Some(EntropyFailure) <==> length > 0 && !Supplies(entropy, length)
    ensures g.err.None? <==> length > 0 && Supplies(entropy, length)
    ensures g.err.Some? ==> g.password == ""
    ensures g.err.None? ==> |g.password| == length
    ensures g.err.None? ==>
      forall k :: 0 <= k < length ==> g.password[k] == Alphabet(includeSymbols)[entropy[k].value]
  {
    var alphabet := Alphabet(includeSymbols);
    if |alphabet| == 0 || length <= 0 then
      Generated("", Some(InvalidInput))
    else
      match Fill(alphabet, entropy, length)
      case None => Generated("", Some(EntropyFailure))
      case Some(password) =>
        Generated(password, None)
  }

  /** Every character a fill produces is a character of its alphabet. */
  lemma FillStaysInAlphabet(alphabet: string, entropy: seq<Draw>, n: nat)
    requires ValidEntropy(entropy, |alphabet|)
    requires Fill(alphabet, entropy, n).Some?
    ensures forall c :: c in Fill(alphabet, entropy, n).value ==> c in alphabet
  {
    var password := Fill(alphabet, entropy, n).value;
    forall c | c in password
      ensures c in alphabet
    {
      var k :| 0 <= k < |password| && password[k] == c;
      assert entropy[k].value < |alphabet|;
    }
  }

  /** Every character of a generated password belongs to the alphabet of
      that call; without symbols, it is a letter or a digit and never a
      symbol. */
  lemma PasswordUsesAlphabet(length: int, includeSymbols: bool, entropy: seq<Draw>)
    requires ValidEntropy(entropy, |Alphabet(includeSymbols)|)
    ensures var g := GeneratePassword(length, includeSymbols, entropy);
      g.err.None? ==> forall c :: c in g.password ==> c in Alphabet(includeSymbols)
    ensures var g := GeneratePassword(length, includeSymbols, entropy);
      g.err.None? && !includeSymbols ==> forall c :: c in g.password ==> IsAlnum(c) && c !in CharSymbols
  {
    if length > 0 && Supplies(entropy, length) {
      FillStaysInAlphabet(Alphabet(includeSymbols), entropy, length);
      SymbolsAreNotAlnum();
    }
  }

  /** The generator as the source writes it: a buffer of `length` bytes
      filled position by position from the random source. */
  method GeneratePasswordInPlace(length: int, includeSymbols: bool, entropy: seq<Draw>)
    returns (password: string, err: Option<GenError>)
    requires ValidEntropy(entropy, |Alphabet(includeSymbols)|)
    ensures err.Some? ==> password == ""
    ensures err.None? <==> length > 0 && Supplies(entropy, length)
    ensures err.None? ==> |password| == length
    ensures err.None? ==>
      forall k :: 0 <= k < |password| ==> password[k] == Alphabet(includeSymbols)[entropy[k].value]
    ensures Generated(password, err) == GeneratePassword(length, includeSymbols, entropy)
  {
    var alphabet := Alphabet(includeSymbols);
    if |alphabet| == 0 || length <= 0 {
      return "", Some(InvalidInput);
    }
    var buffer := new char[length];
    var i := 0;
    while i < length
      invariant 0 <= i <= length
      invariant Supplies(entropy, i)
      invariant forall k :: 0 <= k < i ==> buffer[k] == alphabet[entropy[k].value]
    {
      if i >= |entropy| || entropy[i].Failure? {
        return "", Some(EntropyFailure);
      }
      buffer[i] := alphabet[entropy[i].value];
      i := i + 1;
    }
    password := buffer[..];
    err := None;
  }
}
