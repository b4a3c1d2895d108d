/** Password generation: one password (`gerar_senha`) and a batch of them
    (`gerar_lista`). Every random draw is an arbitrary choice from its pool, so
    each contract below holds whatever the random source yields. */
module Generator {
  import opened Config
  import opened Wrappers

  /** Smallest and largest batch size a request may ask for. */
  const MinQuantity: int := 1
  const MaxQuantity: int := 10000

  /** Why a batch request fails. */
  datatype Error =
    | InvalidQuantity(qtd: int)   // the count lies outside [MinQuantity, MaxQuantity]
    | AttemptsExhausted           // the unique loop used up its attempt bound

  /** No password occurs twice. */
  predicate Distinct(xs: seq<string>)
  {
    forall i, j | 0 <= i < j < |xs| :: xs[i] != xs[j]
  }

  /** One draw of `secrets.choice`: some symbol of the pool. */
  method Choice(pool: string) returns (c: char)
    requires pool != []
    ensures c in pool
  {
    assert pool[0] in pool;
    c :| c in pool;
  }

  /** `SystemRandom.shuffle`: the in-place Fisher-Yates shuffle, walking down
      from the last position and swapping each with an arbitrary position at
      or below it. Only the order changes. */
  method Shuffle<T>(a: array<T>)
    modifies a
    ensures multiset(a[..]) == old(multiset(a[..]))
  {
    var i := a.Length - 1;
    while i >= 1
      invariant i < a.Length
      invariant multiset(a[..]) == old(multiset(a[..]))
    {
      var j :| 0 <= j <= i;
      a[i], a[j] := a[j], a[i];
      i := i - 1;
    }
  }

  /** `gerar_senha`: a password of `Length` symbols of the alphabet. With
      requireAll it is an ordering of one digit, one upper-case letter, one
      lower-case letter and two further symbols, so it has all three classes. */
  method GerarSenha(requireAll: bool) returns (p: string)
    ensures MeetsPolicy(p, requireAll)
    ensures requireAll ==> Assembled(p)
  {
    if !requireAll {
      p := [];
      for k := 0 to Length
        invariant |p| == k
        invariant forall i | 0 <= i < |p| :: p[i] in Charset
      {
        var c := Choice(Charset);
        p := p + [c];
      }
      return;
    }
    var d := Choice(Digits);
    var u := Choice(Uppercase);
    var l := Choice(Lowercase);
    var partes := [d, u, l];
    while |partes| < Length
      invariant 3 <= |partes| <= Length
      invariant partes[..3] == [d, u, l]
      invariant forall i | 3 <= i < |partes| :: partes[i] in Charset
    {
      var c := Choice(Charset);
      partes := partes + [c];
    }
    // the list is shuffled in place
    var lista := new char[Length](k requires 0 <= k < Length => partes[k]);
    assert lista[..] == partes;
    Shuffle(lista);
    p := lista[..];
    assert partes == [d, u, l, partes[3], partes[4]];
    AssembledMeetsPolicy(p);
  }

  /** `list(senhas)`: the members of a set, each once, in an order the set
      leaves open. */
  method ListOf(s: set<string>) returns (xs: seq<string>)
    ensures |xs| == |s|
    ensures forall x :: x in xs <==> x in s
    ensures Distinct(xs)
  {
    xs := [];
    var rest := s;
    while rest != {}
      invariant rest <= s
      invariant forall x :: x in xs <==> x in s && x !in rest
      invariant |xs| + |rest| == |s|
      invariant Distinct(xs)
      decreases rest
    {
      var x :| x in rest;
      xs := xs + [x];
      rest := rest - {x};
    }
  }

  /** `gerar_lista`: a batch of qtd passwords, each meeting the policy. A count
      outside [MinQuantity, MaxQuantity] is rejected before anything is drawn.
      With unique, passwords are collected in a set until it holds qtd of them;
      that loop has no bound in the source, so here it may make at most
      maxAttempts draws and otherwise fails with AttemptsExhausted. */
  method GerarLista(qtd: int, unique: bool, requireAll: bool, maxAttempts: nat)
    returns (r: Result<seq<string>, Error>)
    ensures r == Failure(InvalidQuantity(qtd)) <==> qtd < MinQuantity || qtd > MaxQuantity
    ensures r == Failure(AttemptsExhausted) ==> unique
    ensures MinQuantity <= qtd <= MaxQuantity ==> r.Success? || (unique && r == Failure(AttemptsExhausted))
    ensures r.Success? ==> |r.value| == qtd
    ensures r.Success? ==> forall i | 0 <= i < |r.value| :: MeetsPolicy(r.value[i], requireAll)
    ensures r.Success? && unique ==> Distinct(r.value)
  {
    if qtd < MinQuantity || qtd > MaxQuantity {
      return Failure(InvalidQuantity(qtd));
    }
    if !unique {
      var senhas: seq<string> := [];
      for k := 0 to qtd
        invariant |senhas| == k
        invariant forall i | 0 <= i < |senhas| :: MeetsPolicy(senhas[i], requireAll)
      {
        var s := GerarSenha(requireAll);
        senhas := senhas + [s];
      }
      return Success(senhas);
    }
    var senhas: set<string> := {};
    var attempts: nat := 0;
    while |senhas| < qtd
      invariant |senhas| <= qtd && attempts <= maxAttempts
      invariant forall s | s in senhas :: MeetsPolicy(s, requireAll)
      decreases maxAttempts - attempts
    {
      if attempts == maxAttempts {
        return Failure(AttemptsExhausted);
      }
      var s := GerarSenha(requireAll);
      senhas := senhas + {s};
      attempts := attempts + 1;
    }
    var lista := ListOf(senhas);
    return Success(lista);
  }

  // ---------------------------------------------------------------------------
  // The unique loop has room to finish: the alphabet allows far more distinct
  // passwords, even under the require-all policy, than the largest batch.

  /** The n-th of 38440 distinct passwords that meet the require-all policy:
      a digit, two symbols of the alphabet, then "A" and "a". */
  ghost function Sample(n: nat): (p: string)
    requires n < 38440
    ensures MeetsPolicy(p, true)
  {
    CharsetSize();
    var p := [Digits[n % 10], Charset[(n / 10) % 62], Charset[n / 620], Uppercase[0], Lowercase[0]];
    assert p[0] in Digits && p[3] in Uppercase && p[4] in Lowercase;
    p
  }

  /** Different indices give different samples. */
  lemma {:induction false} SampleInjective(m: nat, n: nat)
    requires m < 38440 && n < 38440 && Sample(m) == Sample(n)
    ensures m == n
  {
    CharsetSize();
    CharsetAt(m % 10);
    CharsetAt(n % 10);
    assert Digits[m % 10] == Charset[m % 10] && Digits[n % 10] == Charset[n % 10];
    assert Sample(m)[0] == Sample(n)[0] && Sample(m)[1] == Sample(n)[1] && Sample(m)[2] == Sample(n)[2];
    assert m % 10 == n % 10;
    assert (m / 10) % 62 == (n / 10) % 62;
    assert m / 620 == n / 620;
    assert m / 10 / 62 == m / 620 && n / 10 / 62 == n / 620;
    assert m / 10 == (m / 10) % 62 + 62 * (m / 620);
    assert n / 10 == (n / 10) % 62 + 62 * (n / 620);
    assert m / 10 == n / 10;
  }

  /** For every admissible count there is a batch of that many distinct
      passwords meeting the require-all policy, so the unique loop is never
      asked for more than the alphabet can give. */
  lemma UniqueBatchExists(qtd: int) returns (xs: seq<string>)
    requires MinQuantity <= qtd <= MaxQuantity
    ensures |xs| == qtd && Distinct(xs)
    ensures forall i | 0 <= i < |xs| :: MeetsPolicy(xs[i], true) && MeetsPolicy(xs[i], false)
  {
    xs := seq(qtd, i requires 0 <= i < qtd => Sample(i));
    forall i, j | 0 <= i < j < |xs| ensures xs[i] != xs[j] {
      if xs[i] == xs[j] {
        SampleInjective(i, j);
      }
    }
  }
}
