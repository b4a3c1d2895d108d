/** The configuration of the generator: the password length, the alphabet and
    its three character classes, and the policy a generated password obeys. */
module Config {

  /** Number of symbols in every password. */
  const Length: nat := 5

  /** The three character classes, in the order the alphabet lists them. */
  const Digits: string := "0123456789"
  const Uppercase: string := "ABCDEFGHIJKLMNOPQRSTUVWXYZ"
  const Lowercase: string := "abcdefghijklmnopqrstuvwxyz"

  /** The alphabet: digits, then upper-case, then lower-case letters. */
  const Charset: string := Digits + Uppercase + Lowercase

  /** A well-formed password: exactly `Length` symbols, each from the alphabet. */
  predicate IsPassword(p: string)
  {
    |p| == Length && forall i | 0 <= i < |p| :: p[i] in Charset
  }

  predicate HasDigit(p: string) { exists i | 0 <= i < |p| :: p[i] in Digits }
  predicate HasUppercase(p: string) { exists i | 0 <= i < |p| :: p[i] in Uppercase }
  predicate HasLowercase(p: string) { exists i | 0 <= i < |p| :: p[i] in Lowercase }

  /** The require-all-classes constraint: a digit, an upper-case and a lower-case letter. */
  predicate HasAllClasses(p: string)
  {
    HasDigit(p) && HasUppercase(p) && HasLowercase(p)
  }

  /** What a generated password promises, with or without the require-all option. */
  predicate MeetsPolicy(p: string, requireAll: bool)
  {
    IsPassword(p) && (requireAll ==> HasAllClasses(p))
  }

  /** The shape of the require-all construction: the password is some ordering
      of one digit, one upper-case letter, one lower-case letter and two
      symbols of the whole alphabet. */
  ghost predicate Assembled(p: string)
  {
    exists d, u, l, x, y ::
      d in Digits && u in Uppercase && l in Lowercase && x in Charset && y in Charset &&
      multiset(p) == multiset([d, u, l, x, y])
  }

  // ---------------------------------------------------------------------------
  // Facts about the alphabet

  /** Each class is a contiguous run of character codes. */
  lemma ClassRanges(c: char)
    ensures c in Digits <==> '0' <= c <= '9'
    ensures c in Uppercase <==> 'A' <= c <= 'Z'
    ensures c in Lowercase <==> 'a' <= c <= 'z'
  {
  }

  /** The alphabet is exactly the union of the three classes. */
  lemma CharsetIsUnion(c: char)
    ensures c in Charset <==> c in Digits || c in Uppercase || c in Lowercase
  {
  }

  /** The three classes share no symbol. */
  lemma {:induction false} ClassesDisjoint(c: char)
    ensures !(c in Digits && c in Uppercase)
    ensures !(c in Digits && c in Lowercase)
    ensures !(c in Uppercase && c in Lowercase)
  {
    ClassRanges(c);
  }

  /** The character code of the alphabet's k-th symbol. */
  lemma CharsetAt(k: nat)
    requires k < |Charset|
    ensures k < 10 ==> Charset[k] as int == '0' as int + k
    ensures 10 <= k < 36 ==> Charset[k] as int == 'A' as int + (k - 10)
    ensures 36 <= k ==> Charset[k] as int == 'a' as int + (k - 36)
  {
    assert forall i | 0 <= i < |Digits| :: Digits[i] as int == '0' as int + i;
    assert forall i | 0 <= i < |Uppercase| :: Uppercase[i] as int == 'A' as int + i;
    assert forall i | 0 <= i < |Lowercase| :: Lowercase[i] as int == 'a' as int + i;
  }

  /** The alphabet has 62 symbols and lists none of them twice. */
  lemma CharsetSize()
    ensures |Charset| == 62
    ensures forall i, j | 0 <= i < j < |Charset| :: Charset[i] != Charset[j]
  {
    forall i, j | 0 <= i < j < |Charset| ensures Charset[i] != Charset[j] {
      CharsetAt(i);
      CharsetAt(j);
    }
  }

  // ---------------------------------------------------------------------------
  // The require-all construction produces exactly the passwords of the policy

  /** Taking the symbol at index i out of a sequence. */
  lemma MultisetRemove(s: string, i: nat)
    requires i < |s|
    ensures multiset(s) == multiset{s[i]} + multiset(s[..i] + s[i + 1..])
  {
    assert s == s[..i] + [s[i]] + s[i + 1..];
  }

  /** Taking one occurrence of a out of s. */
  lemma TakeOne(s: string, a: char) returns (s1: string)
    requires a in s
    ensures |s1| == |s| - 1
    ensures multiset(s) == multiset{a} + multiset(s1)
  {
    var i :| 0 <= i < |s| && s[i] == a;
    s1 := s[..i] + s[i + 1..];
    MultisetRemove(s, i);
  }

  /** Five symbols containing three distinct symbols a, b, c are an ordering of
      a, b, c and two of their own symbols. */
  lemma {:induction false} TakeThree(s: string, a: char, b: char, c: char) returns (x: char, y: char)
    requires |s| == 5 && a in s && b in s && c in s
    requires a != b && a != c && b != c
    ensures x in s && y in s && multiset(s) == multiset([a, b, c, x, y])
  {
    assert a in multiset(s);
    var s1 := TakeOne(s, a);
    assert multiset(s)[b] == multiset(s1)[b] && multiset(s)[c] == multiset(s1)[c];
    var s2 := TakeOne(s1, b);
    assert multiset(s1)[c] == multiset(s2)[c];
    var s3 := TakeOne(s2, c);
    x, y := s3[0], s3[1];
    assert s3 == [x, y];
    assert multiset(s) == multiset{a} + multiset{b} + multiset{c} + multiset(s3);
    assert [a, b, c, x, y] == [a] + [b] + [c] + s3;
    assert multiset([a, b, c, x, y]) == multiset([a]) + multiset([b]) + multiset([c]) + multiset(s3);
    assert multiset(s)[x] >= 1 && multiset(s)[y] >= 1;
  }

  /** Every ordering of the construction meets the require-all policy. */
  lemma {:induction false} AssembledMeetsPolicy(p: string)
    requires Assembled(p)
    ensures MeetsPolicy(p, true)
  {
    var d, u, l, x, y :|
      d in Digits && u in Uppercase && l in Lowercase && x in Charset && y in Charset &&
      multiset(p) == multiset([d, u, l, x, y]);
    assert |p| == |multiset(p)| == 5;
    forall i | 0 <= i < |p| ensures p[i] in Charset {
      assert p[i] in multiset(p);
      assert p[i] in [d, u, l, x, y];
      CharsetIsUnion(p[i]);
    }
    assert d in multiset(p) && u in multiset(p) && l in multiset(p);
    assert d in p && u in p && l in p;
  }

  /** Every password meeting the require-all policy is an ordering of the
      construction: the construction can produce each of them. */
  lemma {:induction false} PolicyIsAssembled(p: string)
    requires MeetsPolicy(p, true)
    ensures Assembled(p)
  {
    var i :| 0 <= i < |p| && p[i] in Digits;
    var j :| 0 <= j < |p| && p[j] in Uppercase;
    var k :| 0 <= k < |p| && p[k] in Lowercase;
    ClassesDisjoint(p[i]);
    ClassesDisjoint(p[j]);
    var x, y := TakeThree(p, p[i], p[j], p[k]);
    assert x in Charset && y in Charset;
  }

  /** The require-all construction yields exactly the passwords of the policy. */
  lemma AssembledIffPolicy(p: string)
    ensures Assembled(p) <==> MeetsPolicy(p, true)
  {
    if Assembled(p) { AssembledMeetsPolicy(p); }
    if MeetsPolicy(p, true) { PolicyIsAssembled(p); }
  }
}
