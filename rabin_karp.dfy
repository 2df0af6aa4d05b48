/** The rolling-hash matcher `RabinKarp` of backend/src/matching.js. */
module RabinKarp {
  import opened Strings

  /** Line 137: the radix of the hash. */
  const Base: int := 256
  /** Line 138: the modulus of the hash. */
  const Modulus: int := 101

  lemma {:induction false} MulAtLeast(x: int, m: int)
    requires x >= 1 && m > 0
    ensures x * m >= m
    decreases x
  {
    if x > 1 {
      MulAtLeast(x - 1, m);
      assert x * m == (x - 1) * m + m;
    }
  }

  /** The Euclidean remainder is determined by any decomposition `a == q * m + r`. */
  lemma ModUnique(a: int, m: int, q: int, r: int)
    requires m > 0 && 0 <= r < m && a == q * m + r
    ensures a % m == r
  {
    var q0, r0 := a / m, a % m;
    assert q * m - q0 * m == (q - q0) * m;
    if q > q0 {
      MulAtLeast(q - q0, m);
    } else if q < q0 {
      MulAtLeast(q0 - q, m);
    }
  }

  /** Adding a multiple of the modulus leaves the remainder unchanged. */
  lemma ModAddMultiple(a: int, k: int, m: int)
    requires m > 0
    ensures (a + k * m) % m == a % m
  {
    var q := a / m;
    assert a + k * m == (q + k) * m + a % m;
    ModUnique(a + k * m, m, q + k, a % m);
  }

  /** Removing the remainder leaves a multiple of the divisor, of either sign. */
  lemma RemainderRemoved(a: int, d: int)
    requires d > 0
    ensures (a - a % d) % d == 0 && (a % d - a) % d == 0
  {
    var q := a / d;
    assert a - a % d == q * d;
    assert a % d - a == (-q) * d;
    ModAddMultiple(0, q, d);
    ModAddMultiple(0, -q, d);
  }

  /** JavaScript's `%` on a positive divisor: the remainder of division truncated
      toward zero, which takes the sign of the dividend (Dafny's `%` is Euclidean
      and never negative). */
  function JsRem(a: int, d: int): (r: int)
    requires d > 0
    ensures -d < r < d
    ensures a >= 0 ==> r >= 0
    ensures a <= 0 ==> r <= 0
    ensures (a - r) % d == 0
    ensures a >= 0 ==> r == a % d
  {
    if a >= 0 then
      RemainderRemoved(a, d);
      a % d
    else
      RemainderRemoved(-a, d);
      -(-a % d)
  }

  /** Congruence modulo `m`. */
  predicate Congruent(a: int, b: int, m: int)
    requires m > 0
  {
    a % m == b % m
  }

  lemma CongruentMod(a: int, m: int)
    requires m > 0
    ensures Congruent(a % m, a, m)
  {
    ModUnique(a % m, m, 0, a % m);
  }

  lemma CongruentAdd(a: int, a': int, b: int, b': int, m: int)
    requires m > 0 && Congruent(a, a', m) && Congruent(b, b', m)
    ensures Congruent(a + b, a' + b', m)
  {
    var r := a % m + b % m;
    var k, k' := a / m + b / m, a' / m + b' / m;
    assert a + b == r + k * m by {
      assert k * m == a / m * m + b / m * m;
    }
    assert a' + b' == r + k' * m by {
      assert k' * m == a' / m * m + b' / m * m;
    }
    ModAddMultiple(r, k, m);
    ModAddMultiple(r, k', m);
  }

  lemma CongruentNeg(a: int, a': int, m: int)
    requires m > 0 && Congruent(a, a', m)
    ensures Congruent(-a, -a', m)
  {
    var r := -(a % m);
    var k, k' := -(a / m), -(a' / m);
    assert -a == r + k * m;
    assert -a' == r + k' * m;
    ModAddMultiple(r, k, m);
    ModAddMultiple(r, k', m);
  }

  lemma CongruentScale(a: int, a': int, c: int, m: int)
    requires m > 0 && Congruent(a, a', m)
    ensures Congruent(a * c, a' * c, m)
  {
    var r := (a % m) * c;
    var k, k' := a / m * c, a' / m * c;
    assert a * c == r + k * m by {
      assert a == a / m * m + a % m;
    }
    assert a' * c == r + k' * m by {
      assert a' == a' / m * m + a' % m;
    }
    ModAddMultiple(r, k, m);
    ModAddMultiple(r, k', m);
  }

  function Pow(b: int, e: nat): (r: int)
  {
    if e == 0 then 1 else b * Pow(b, e - 1)
  }

  /** The value of `s` read as a number in radix `base`, most significant code unit
      first, without any modulus: what the hash is the remainder of. */
  function Poly(s: Text, base: int): (v: int)
  {
    if |s| == 0 then 0 else Poly(s[..|s| - 1], base) * base + s[|s| - 1]
  }

  lemma PolyPush(s: Text, c: CodeUnit, base: int)
    ensures Poly(s + [c], base) == Poly(s, base) * base + c
  {
    assert (s + [c])[..|s|] == s;
  }

  /** Removing the most significant code unit subtracts its weight. */
  lemma {:induction false} PolyDropFirst(s: Text, base: int)
    requires |s| > 0
    ensures Poly(s, base) == s[0] * Pow(base, |s| - 1) + Poly(s[1..], base)
    decreases |s|
  {
    var n := |s|;
    if n > 1 {
      var init := s[..n - 1];
      PolyDropFirst(init, base);
      assert init[1..] == s[1..][..n - 2];
      var w, q := Pow(base, n - 2), Poly(init[1..], base);
      assert Poly(s, base) == (s[0] * w + q) * base + s[n - 1];
      assert (s[0] * w + q) * base == s[0] * (base * w) + q * base;
      assert Poly(s[1..], base) == q * base + s[n - 1];
    } else {
      assert s[..0] == [] && s[1..] == [];
    }
  }

  /** Line 120: one step of the hash loop appends a code unit to the hashed prefix. */
  lemma HashStep(s: Text, c: CodeUnit, base: int, mod: int)
    requires base >= 0 && mod > 0
    ensures JsRem(Poly(s, base) % mod * base + c, mod) == Poly(s + [c], base) % mod
  {
    PolyPush(s, c, base);
    CongruentMod(Poly(s, base), mod);
    CongruentScale(Poly(s, base) % mod, Poly(s, base), base, mod);
    CongruentAdd(Poly(s, base) % mod * base, Poly(s, base) * base, c, c, mod);
  }

  /** `RabinKarp.rollingHash` (matching.js:117-123): the hash of `str`, which is the
      polynomial value of `str` in radix `base`, reduced modulo `mod`. */
  method RollingHash(str: Text, base: int, mod: int) returns (hash: int)
    requires base >= 0 && mod > 0
    ensures hash == Poly(str, base) % mod
    ensures 0 <= hash < mod
  {
    hash := 0;
    for i := 0 to |str|
      invariant hash == Poly(str[..i], base) % mod
    {
      assert str[..i + 1] == str[..i] + [str[i]];
      HashStep(str[..i], str[i], base, mod);
      hash := JsRem(hash * base + str[i], mod);
    }
    assert str[..|str|] == str;
  }

  /** `RabinKarp.updateHash` (matching.js:125-134): remove the leading code unit
      `oldVal`, weighted by `powerTerm`, shift by one place and append `newVal`. */
  function UpdateHash(oldHash: int, oldVal: CodeUnit, newVal: CodeUnit, powerTerm: int, base: int, mod: int): (h: int)
    requires mod > 0
    ensures oldHash >= 0 && powerTerm >= 0 && base >= 0 ==> 0 <= h < mod
  {
    var dropped := JsRem(oldHash - JsRem(oldVal * powerTerm, mod) + mod, mod);
    JsRem(dropped * base + newVal, mod)
  }

  /** Lines 126-130: removing the leading code unit `w[0]`, weighted by
      `base^(|w|-1) mod mod`, from the hash of `w` gives the hash of `w[1..]`. */
  lemma DropLeading(w: Text, base: int, mod: int)
    requires |w| > 0 && base >= 0 && mod > 0
    ensures JsRem(Poly(w, base) % mod - JsRem(w[0] * (Pow(base, |w| - 1) % mod), mod) + mod, mod)
         == Poly(w[1..], base) % mod
  {
    DropLeadingCongruent(w, base, mod);
  }

  /** Subtracting the reduced leading term leaves a value congruent to the rest of the window. */
  lemma DropLeadingCongruent(w: Text, base: int, mod: int)
    requires |w| > 0 && base >= 0 && mod > 0
    ensures Congruent(Poly(w, base) % mod - JsRem(w[0] * (Pow(base, |w| - 1) % mod), mod) + mod,
                      Poly(w[1..], base), mod)
  {
    PolyDropFirst(w, base);
    DropTermCongruent(Poly(w, base), Poly(w[1..], base), w[0], Pow(base, |w| - 1), mod);
  }

  /** The same on plain numbers: `whole` is `c * pw + rest`. */
  lemma DropTermCongruent(whole: int, rest: int, c: int, pw: int, mod: int)
    requires c >= 0 && mod > 0 && whole == c * pw + rest
    ensures Congruent(whole % mod - JsRem(c * (pw % mod), mod) + mod, rest, mod)
  {
    var x := whole % mod;
    var y := JsRem(c * (pw % mod), mod);
    LeadingTerm(c, pw, mod);
    CongruentMod(whole, mod);
    CongruentNeg(y, c * pw, mod);
    CongruentAdd(x, whole, -y, -(c * pw), mod);
    ModAddMultiple(x - y, 1, mod);
  }

  /** The leading term reduced as line 129 reduces it is congruent to the full term. */
  lemma LeadingTerm(c: int, pw: int, mod: int)
    requires c >= 0 && mod > 0
    ensures Congruent(JsRem(c * (pw % mod), mod), c * pw, mod)
  {
    var pt := pw % mod;
    CongruentMod(c * pt, mod);
    CongruentMod(pw, mod);
    CongruentScale(pt, pw, c, mod);
    assert pt * c == c * pt && pw * c == c * pw;
  }

  /** The rolling step is correct: updating the hash of window `w` with its first
      code unit and the next one gives the hash of the next window. */
  lemma UpdateHashRolls(w: Text, c: CodeUnit, base: int, mod: int)
    requires |w| > 0 && base >= 0 && mod > 0
    ensures UpdateHash(Poly(w, base) % mod, w[0], c, Pow(base, |w| - 1) % mod, base, mod)
         == Poly(w[1..] + [c], base) % mod
  {
    DropLeading(w, base, mod);
    HashStep(w[1..], c, base, mod);
  }

  /** The hash `RabinKarp.search` keeps for the window of length `m` at shift `i`. */
  ghost function WindowHash(t: Text, i: nat, m: nat): (h: int)
    requires i + m <= |t|
  {
    Poly(t[i..i + m], Base) % Modulus
  }

  /** Line 164: sliding the window by one keeps `currentHash` the hash of the window. */
  lemma SlideWindow(t: Text, i: nat, m: nat, powerTerm: int)
    requires 0 < m && i + m < |t|
    requires powerTerm == Pow(Base, m - 1) % Modulus
    ensures UpdateHash(WindowHash(t, i, m), t[i], t[i + m], powerTerm, Base, Modulus) == WindowHash(t, i + 1, m)
  {
    UpdateHashRolls(t[i..i + m], t[i + m], Base, Modulus);
    assert t[i..i + m][1..] + [t[i + m]] == t[i + 1..i + 1 + m];
  }

  /** An occurrence is a window equal to the pattern. */
  lemma OccursAtWindow(t: Text, p: Text, i: nat)
    requires i + |p| <= |t|
    ensures OccursAt(t, p, i) <==> t[i..i + |p|] == p
  {
  }

  /** An occurrence has the pattern's hash: a window whose hash differs from the
      pattern's is skipped without loss (line 152). */
  lemma OccurrenceHasPatternHash(t: Text, p: Text, i: nat)
    requires i + |p| <= |t|
    ensures OccursAt(t, p, i) ==> WindowHash(t, i, |p|) == Poly(p, Base) % Modulus
  {
    if OccursAt(t, p, i) {
      assert t[i..i + |p|] == p;
    }
  }

  /** Different windows can share a hash: "a" (97) and code unit 198 both hash to 97,
      which is why lines 153-160 compare the window before reporting it. */
  lemma HashCollision()
    ensures Poly([97], Base) % Modulus == Poly([198], Base) % Modulus == 97
  {
    assert [97][..0] == [] && [198][..0] == [];
  }

  /** Lines 153-160: on equal hashes, compare the window with the pattern code unit
      by code unit and report shift `i` when all of them agree. */
  method CompareWindow(text: Text, pattern: Text, i: nat, result: seq<nat>) returns (result': seq<nat>)
    requires i + |pattern| <= |text|
    ensures result' == result + (if |pattern| > 0 && OccursAt(text, pattern, i) then [i] else [])
  {
    result' := result;
    var m := |pattern|;
    var j := 0;
    while j < m
      invariant 0 <= j <= m
      invariant text[i..i + j] == pattern[..j]
      invariant result' == if j == m && m > 0 then result + [i] else result
    {
      if text[i + j] != pattern[j] {
        break;
      }
      assert text[i..i + j + 1] == text[i..i + j] + [text[i + j]];
      assert pattern[..j + 1] == pattern[..j] + [pattern[j]];
      if j == m - 1 {
        result' := result' + [i];
      }
      j := j + 1;
    }
    OccursAtWindow(text, pattern, i);
  }

  /** Lines 145-149: the weight of the leading code unit of a window of length `m`,
      `Base^(m - 1)` reduced modulo `Modulus`. */
  method PowerTerm(m: nat) returns (powerTerm: int)
    ensures m > 0 ==> powerTerm == Pow(Base, m - 1) % Modulus
    ensures 0 <= powerTerm < Modulus
  {
    powerTerm := 1;
    var k := 0;
    while k < m - 1
      invariant 0 <= k && (m > 0 ==> k <= m - 1)
      invariant powerTerm == Pow(Base, k) % Modulus
    {
      CongruentMod(Pow(Base, k), Modulus);
      CongruentScale(powerTerm, Pow(Base, k), Base, Modulus);
      assert Pow(Base, k + 1) == Pow(Base, k) * Base;
      powerTerm := JsRem(powerTerm * Base, Modulus);
      k := k + 1;
    }
  }

  /** `RabinKarp.search` (matching.js:136-168): every start position of `pattern` in
      `text`, overlapping ones included, in ascending order; an empty pattern gives
      `[]` because the comparison loop at line 153 never runs. */
  method Search(text: Text, pattern: Text) returns (result: seq<nat>)
    ensures result == if |pattern| == 0 then [] else Occurrences(text, pattern)
  {
    var n, m := |text|, |pattern|;
    if m > n {
      LongerPatternNeverOccurs(text, pattern);
      return [];
    }
    var patternHash := RollingHash(pattern, Base, Modulus);
    var currentHash := RollingHash(text[..m], Base, Modulus);
    assert text[..m] == text[0..0 + m];
    result := [];
    var powerTerm := PowerTerm(m);
    var i := 0;
    while i <= n - m
      invariant 0 <= i <= n - m + 1
      invariant m > 0 && i <= n - m ==> currentHash == WindowHash(text, i, m)
      invariant result == if m == 0 then [] else OccurrencesBelow(text, pattern, i)
    {
      if currentHash == patternHash {
        result := CompareWindow(text, pattern, i, result);
      } else if m > 0 {
        OccurrenceHasPatternHash(text, pattern, i);
      }
      OccurrencesBelowNext(text, pattern, i);
      if i < n - m {
        if m > 0 {
          SlideWindow(text, i, m, powerTerm);
        }
        currentHash := UpdateHash(currentHash, text[i], text[i + m], powerTerm, Base, Modulus);
      }
      i := i + 1;
    }
    if m > 0 {
      OccurrencesBelowAll(text, pattern, i);
    }
  }
}
