/** The key under which a filter result is cached. */
module CacheKey {
  import opened Vocabulary

  function Digit(d: nat): char
    requires d < 36
  {
    if d < 10 then '0' + d as char else 'a' + (d - 10) as char
  }

  /** Unsigned base-36 printing. */
  function Base36(n: nat): (s: string)
    ensures s != []
  {
    if n < 36 then [Digit(n)] else Base36(n / 36) + [Digit(n % 36)]
  }

  function DigitValue(c: char): nat {
    if '0' <= c <= '9' then (c - '0') as nat
    else if 'a' <= c <= 'z' then (c - 'a') as nat + 10
    else 0
  }

  function ReadBase36(s: string): nat {
    if s == [] then 0 else 36 * ReadBase36(Init(s)) + DigitValue(Last(s))
  }

  function Key(strategy: string, version: nat, hash: nat): string {
    "filter:" + (strategy + (":v" + (Base36(version) + (":" + Base36(hash)))))
  }

  method FilterCacheKey(text: Runes, hashOf: Runes -> nat, strategy: string, version: nat) returns (key: string)
    ensures key == Key(strategy, version, hashOf(text))
  {
    var hash := hashOf(text);
    key := "filter:";
    key := key + strategy;
    key := key + ":v";
    key := key + Base36(version);
    key := key + ":";
    key := key + Base36(hash);
  }

  /** The layout, on an example: strategy, version and hash in base 36. */
  lemma KeyLayout()
    ensures Key("detect", 37, 46655) == "filter:detect:v11:zzz"
  {
    assert Base36(37) == "11";
    assert Base36(1295) == "zz";
    assert Base36(46655) == "zzz";
  }

  lemma DigitReads(d: nat)
    requires d < 36
    ensures DigitValue(Digit(d)) == d && Digit(d) != ':'
  {
  }

  /** Printing can be undone, and uses no colon. */
  lemma {:induction false} Base36RoundTrip(n: nat)
    ensures ReadBase36(Base36(n)) == n && ':' !in Base36(n)
  {
    hide DigitValue, Digit;
    if n < 36 {
      DigitReads(n);
      assert Init(Base36(n)) == [];
    } else {
      Base36RoundTrip(n / 36);
      DigitReads(n % 36);
      assert Init(Base36(n)) == Base36(n / 36);
    }
  }

  function Power36(k: nat): nat {
    if k == 0 then 1 else 36 * Power36(k - 1)
  }

  lemma {:induction false} Base36Length(n: nat, k: nat)
    requires n < Power36(k) && k >= 1
    ensures |Base36(n)| <= k
  {
    if n >= 36 {
      assert Power36(1) == 36;
      assert Power36(k) == 36 * Power36(k - 1);
      Base36Length(n / 36, k - 1);
    }
  }

  /** What stands before and after the first colon is determined. */
  lemma SplitAtColon(a: string, b: string, c: string, d: string)
    requires ':' !in a && ':' !in c && a + (":" + b) == c + (":" + d)
    ensures a == c && b == d
  {
    var s, t := a + (":" + b), c + (":" + d);
    assert s[|a|] == ':' && t[|c|] == ':';
    assert forall k | 0 <= k < |a| :: s[k] == a[k];
    assert forall k | 0 <= k < |c| :: t[k] == c[k];
    assert a == s[..|a|] && c == t[..|c|];
    assert b == s[|a| + 1..] && d == t[|c| + 1..];
  }

  predicate StrategyName(s: string) {
    s == "detect" || s == "replace" || s == "highlight"
  }

  lemma StrategyNames(s: string)
    requires StrategyName(s)
    ensures ':' !in s && |s| <= 9
  {
  }

  /** Different (strategy, version, text hash) have different keys. */
  lemma KeyInjective(s1: string, v1: nat, h1: nat, s2: string, v2: nat, h2: nat)
    requires StrategyName(s1) && StrategyName(s2)
    requires Key(s1, v1, h1) == Key(s2, v2, h2)
    ensures s1 == s2 && v1 == v2 && h1 == h2
  {
    hide Base36, ReadBase36, StrategyName;
    StrategyNames(s1);
    StrategyNames(s2);
    Base36RoundTrip(v1);
    Base36RoundTrip(v2);
    Base36RoundTrip(h1);
    Base36RoundTrip(h2);
    var r1, r2 := Base36(v1) + (":" + Base36(h1)), Base36(v2) + (":" + Base36(h2));
    assert Key(s1, v1, h1)[7..] == s1 + (":" + ("v" + r1)) && Key(s2, v2, h2)[7..] == s2 + (":" + ("v" + r2));
    SplitAtColon(s1, "v" + r1, s2, "v" + r2);
    assert ("v" + r1)[1..] == r1 && ("v" + r2)[1..] == r2;
    SplitAtColon(Base36(v1), Base36(h1), Base36(v2), Base36(h2));
  }

  /** 64-bit numbers fit the reserved 48 bytes, and every key starts with the invalidated prefix. */
  lemma KeyFits(strategy: string, version: nat, hash: nat)
    requires StrategyName(strategy)
    requires version < 0x1_0000_0000_0000_0000 && hash < 0x1_0000_0000_0000_0000
    ensures |Key(strategy, version, hash)| <= 45 && "filter:" <= Key(strategy, version, hash)
  {
    hide Base36, StrategyName;
    StrategyNames(strategy);
    Power36Of13();
    Base36Length(version, 13);
    Base36Length(hash, 13);
  }

  lemma Power36Of13()
    ensures Power36(13) >= 0x1_0000_0000_0000_0000
  {
    assert Power36(3) == 46656;
    assert Power36(6) == 46656 * 46656;
    assert Power36(9) == 46656 * 46656 * 46656;
    assert Power36(12) == 46656 * 46656 * 46656 * 46656;
  }
}
