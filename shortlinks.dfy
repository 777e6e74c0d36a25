/**
 * Short links of recipes: `/s/` followed by six letters or digits, and the
 * public URL built from a recipe's link.
 */
module ShortLinks {
  import opened Wrappers

  /** The host put in front of a short link by `get_short_link`. */
  const Host := "https://taskitest.ddns.net"
  const LinkPrefix := "/s/"
  /** The number of random characters in a short link. */
  const LinkLength := 6
  /** The `n` consecutive characters starting at `lo`. */
  function CharRange(lo: char, n: nat): (r: string)
    requires lo as int + n <= 128
    ensures |r| == n && forall i :: 0 <= i < n ==> r[i] as int == lo as int + i
  {
    if n == 0 then [] else CharRange(lo, n - 1) + [(lo as int + n - 1) as char]
  }

  /** `string.ascii_lowercase`, `string.ascii_uppercase` and `string.digits`. */
  const Lowercase: string := CharRange('a', 26)
  const Uppercase: string := CharRange('A', 26)
  const Digits: string := CharRange('0', 10)
  /** `string.ascii_letters + string.digits`. */
  const LinkAlphabet: string := Lowercase + Uppercase + Digits

  predicate IsAsciiAlnum(c: char) {
    ('a' <= c <= 'z') || ('A' <= c <= 'Z') || ('0' <= c <= '9')
  }

  /**
   * One outcome of `random.choices(characters, k=6)`: six characters of the
   * alphabet, that is six ASCII letters or digits (`AlphabetIsAlphanumeric`).
   */
  predicate IsDraw(s: string) {
    |s| == LinkLength && forall k :: 0 <= k < |s| ==> IsAsciiAlnum(s[k])
  }

  /** A link as `generate_short_link` builds it. */
  predicate IsShortLink(link: string) {
    |link| == |LinkPrefix| + LinkLength && LinkPrefix <= link && IsDraw(link[|LinkPrefix|..])
  }

  lemma CharRangeMembers(lo: char, n: nat, c: char)
    requires lo as int + n <= 128
    ensures c in CharRange(lo, n) <==> lo as int <= c as int < lo as int + n
  {
    var r := CharRange(lo, n);
    if lo as int <= c as int < lo as int + n {
      assert r[c as int - lo as int] == c;
    }
  }

  /** The alphabet is the 62 ASCII letters and digits. */
  lemma AlphabetIsAlphanumeric()
    ensures |LinkAlphabet| == 62
    ensures forall c :: c in LinkAlphabet <==> IsAsciiAlnum(c)
  {
    forall c ensures c in LinkAlphabet <==> IsAsciiAlnum(c) {
      CharRangeMembers('a', 26, c);
      CharRangeMembers('A', 26, c);
      CharRangeMembers('0', 10, c);
    }
  }

  /** A drawn link is `/s/` and the draw. */
  lemma DrawnLinkIsShortLink(draw: string)
    requires IsDraw(draw)
    ensures IsShortLink(LinkPrefix + draw)
  {
    assert (LinkPrefix + draw)[|LinkPrefix|..] == draw;
  }

  /** A short link is nine characters, `/s/` and then six characters of the alphabet. */
  lemma ShortLinkShape(link: string)
    requires IsShortLink(link)
    ensures |link| == 9 && link[..3] == "/s/"
    ensures forall k :: 3 <= k < 9 ==> link[k] in LinkAlphabet
  {
    AlphabetIsAlphanumeric();
    forall k | 3 <= k < 9 ensures link[k] in LinkAlphabet {
      assert link[k] == link[3..][k - 3];
    }
  }

  /**
   * `get_short_link`: no URL for an empty link, otherwise the host followed
   * by the link.
   */
  function ShortLinkUrl(link: string): (r: Option<string>)
    ensures r.None? <==> link == ""
    ensures r.Some? ==> Host <= r.value && r.value[|Host|..] == link
  {
    if link == "" then None else Some(Host + link)
  }

  /** Two different links never give the same URL. */
  lemma ShortLinkUrlInjective(a: string, b: string)
    requires ShortLinkUrl(a) == ShortLinkUrl(b)
    ensures a == b
  {
    if a != "" {
      assert ShortLinkUrl(a).value[|Host|..] == a;
    }
  }
}
