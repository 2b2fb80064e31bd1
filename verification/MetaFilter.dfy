/** The domain test of src/utils.rs that suppresses the pause between the records. */
module MetaFilter {
  import opened Bytes
  import opened Resolver
  import opened Query

  function Ascii(s: string): (b: bytes)
    ensures |b| == |s|
  {
    seq(|s|, i requires 0 <= i < |s| => s[i] as int % 256)
  }

  /**
    What is needed of the library's lower-casing, which follows the full Unicode tables: nothing comes
    of nothing, and a final dot stays one.
   */
  ghost predicate KeepsFinalDot(lower: bytes -> bytes) {
    && lower([]) == []
    && forall s :: s != [] && s[|s| - 1] == DOT ==> lower(s) != [] && lower(s)[|lower(s)| - 1] == DOT
  }

  function LowerByte(b: byte): byte {
    if 0x41 <= b <= 0x5A then b + 32 else b
  }

  /** ASCII lower-casing, for one. */
  function LowerBytes(s: bytes): (r: bytes)
    ensures |r| == |s|
  {
    seq(|s|, i requires 0 <= i < |s| => LowerByte(s[i]))
  }

  lemma AsciiKeepsFinalDot()
    ensures KeepsFinalDot(LowerBytes)
  {
  }

  // ---- The test --------------------------------------------------------------------------

  predicate EndsWith(s: bytes, suffix: bytes) {
    |suffix| <= |s| && s[|s| - |suffix|..] == suffix
  }

  const PADDING_INCOMPATIBLE_DOMAINS: seq<string> := [
    "instagram.com", "facebook.com", "fbcdn.net", "cdninstagram.com", "messenger.com",
    "whatsapp.net", "whatsapp.com"
  ]

  predicate IsPaddingIncompatible(host: bytes, lower: bytes -> bytes) {
    exists d :: d in PADDING_INCOMPATIBLE_DOMAINS && EndsWith(lower(host), Ascii(d))
  }

  /** The domains whose servers are spared. */
  const META_DOMAINS: set<string> := {
    "cdninstagram.com", "facebook.com", "fbcdn.net", "instagram.com", "messenger.com", "whatsapp.com", "whatsapp.net"
  }

  lemma SameDomains(d: string)
    ensures d in PADDING_INCOMPATIBLE_DOMAINS <==> d in META_DOMAINS
  {
    var ds := PADDING_INCOMPATIBLE_DOMAINS;
    assert ds[0] in ds && ds[1] in ds && ds[2] in ds && ds[3] in ds && ds[4] in ds && ds[5] in ds && ds[6] in ds;
  }

  lemma DomainLetters(d: string)
    requires d in META_DOMAINS
    ensures forall i :: 0 <= i < |d| ==> 'a' <= d[i] <= 'z' || d[i] == '.'
  {
  }

  /** The bytes spell the domain, in capitals or small letters. */
  predicate Spells(s: bytes, d: string) {
    |s| == |d| && forall i :: 0 <= i < |d| ==>
      s[i] == d[i] as int || ('a' <= d[i] <= 'z' && s[i] == d[i] as int - 32)
  }

  /** A host passes the test exactly when it ends in one of the domains, in any case and after anything. */
  lemma FilterExactly(host: bytes)
    ensures IsPaddingIncompatible(host, LowerBytes)
      <==> exists before, tail, d :: host == before + tail && d in META_DOMAINS && Spells(tail, d)
  {
    hide EndsWith, Ascii, LowerBytes, Spells;
    if IsPaddingIncompatible(host, LowerBytes) {
      var d :| d in PADDING_INCOMPATIBLE_DOMAINS && EndsWith(LowerBytes(host), Ascii(d));
      SameDomains(d);
      DomainLetters(d);
      SuffixSpelled(host, d);
      TakeDrop(host, |host| - |d|);
    }
    if before, tail, d :| host == before + tail && d in META_DOMAINS && Spells(tail, d) {
      SameDomains(d);
      DomainLetters(d);
      SpelledSuffix(before, tail, d);
    }
  }

  lemma SuffixSpelled(host: bytes, d: string)
    requires EndsWith(LowerBytes(host), Ascii(d))
    requires forall i :: 0 <= i < |d| ==> 'a' <= d[i] <= 'z' || d[i] == '.'
    ensures |d| <= |host| && Spells(host[|host| - |d|..], d)
  {
    var tail := host[|host| - |d|..];
    forall i | 0 <= i < |d|
      ensures LowerByte(tail[i]) == d[i] as int
    {
      assert LowerBytes(host)[|host| - |d|..][i] == LowerByte(host[|host| - |d| + i]);
      assert Ascii(d)[i] == d[i] as int;
    }
  }

  lemma SpelledSuffix(before: bytes, tail: bytes, d: string)
    requires Spells(tail, d) && forall i :: 0 <= i < |d| ==> 'a' <= d[i] <= 'z' || d[i] == '.'
    ensures EndsWith(LowerBytes(before + tail), Ascii(d))
  {
    var host := before + tail;
    assert LowerBytes(host)[|before|..] == Ascii(d) by {
      forall i | 0 <= i < |d|
        ensures LowerBytes(host)[|before|..][i] == Ascii(d)[i]
      {
        assert host[|before| + i] == tail[i];
      }
    }
  }

  // ---- The test after the trailing dot ---------------------------------------------------

  lemma DomainsEndInLetters(d: string)
    requires d in PADDING_INCOMPATIBLE_DOMAINS
    ensures d != [] && Ascii(d)[|d| - 1] != DOT
  {
    var k :| 0 <= k < |PADDING_INCOMPATIBLE_DOMAINS| && PADDING_INCOMPATIBLE_DOMAINS[k] == d;
    assert d[|d| - 1] == 'm' || d[|d| - 1] == 't';
  }

  /**
    The test runs on the host after the trailing dot was added. With that option on it holds exactly
    for hosts that count as literal addresses and pass it as they are: for no domain name.
   */
  lemma TrailingDotDisablesFilter(host: bytes, isIp: bytes -> bool, lower: bytes -> bytes)
    requires KeepsFinalDot(lower)
    ensures IsPaddingIncompatible(EnsureTrailingDot(host, isIp), lower)
      <==> isIp(host) && IsPaddingIncompatible(host, lower)
  {
    if !isIp(host) {
      hide KeepsFinalDot, IsPaddingIncompatible;
      FinalDotNeverPasses(EnsureTrailingDot(host, isIp), lower);
    }
  }

  lemma FinalDotNeverPasses(host: bytes, lower: bytes -> bytes)
    requires KeepsFinalDot(lower) && (host == [] || host[|host| - 1] == DOT)
    ensures !IsPaddingIncompatible(host, lower)
  {
    var lowered := lower(host);
    assert lowered == [] || lowered[|lowered| - 1] == DOT;
    hide KeepsFinalDot, EndsWith, Ascii;
    forall d | d in PADDING_INCOMPATIBLE_DOMAINS
      ensures !EndsWith(lowered, Ascii(d))
    {
      DomainsEndInLetters(d);
      LastByte(lowered, Ascii(d));
    }
  }

  lemma LastByte(s: bytes, suffix: bytes)
    requires suffix != []
    ensures EndsWith(s, suffix) ==> s != [] && s[|s| - 1] == suffix[|suffix| - 1]
  {
    if EndsWith(s, suffix) {
      assert s[|s| - |suffix|..][|suffix| - 1] == s[|s| - 1];
    }
  }
}
