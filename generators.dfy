/** The daily mission links and the cosmetic reward key. `Math.random()` is
    replaced by the choices it would have made, supplied by the caller, and
    `Date.now()` by the time each link is stamped with. */
module Generators {
  import opened Wrappers
  import opened JsText

  const BaseUrls: seq<string> := [
    "https://www.youtube.com",
    "https://www.github.com",
    "https://www.stackoverflow.com",
    "https://www.reddit.com",
    "https://www.twitter.com"
  ]

  /** `Math.floor(Math.random() * baseUrls.length)` is an index into BaseUrls. */
  type UrlChoice = i: int | 0 <= i < 5

  /** What one iteration of the link loop draws: a base URL and the clock. */
  datatype LinkDraw = LinkDraw(url: UrlChoice, time: int)

  /** One draw per mission step 1, 2, 3. */
  type LinkDraws = d: seq<LinkDraw> | |d| == 3 witness [LinkDraw(0, 0), LinkDraw(0, 0), LinkDraw(0, 0)]

  /** `link && typeof link === 'string' && link.startsWith('http')`;
      `None` is an absent entry. */
  predicate IsValidLink(link: Option<string>): (ok: bool)
    ensures ok <==> link.Some? && |link.value| >= 4
                    && link.value[0] == 'h' && link.value[1] == 't' && link.value[2] == 't' && link.value[3] == 'p'
  {
    link.Some? && "http" <= link.value
  }

  function MissionLink(draw: LinkDraw, step: int): string
  {
    BaseUrls[draw.url] + LinkQuery(draw, step)
  }

  /** The query string appended to the base URL. */
  function LinkQuery(draw: LinkDraw, step: int): string
  {
    "?ref=fatalbattles-vercel&mission=" + DecimalString(step) + "&t=" + DecimalString(draw.time)
  }

  lemma PrefixOfJoin(a: string, b: string)
    ensures a <= a + b
  {
    assert (a + b)[..|a|] == a;
  }

  lemma PrefixTransitive(a: string, b: string, c: string)
    requires a <= b && b <= c
    ensures a <= c
  {
    assert c[..|a|] == b[..|a|];
  }

  /** Every base URL is an `https://` address. */
  lemma BaseUrlsAreHttp(i: UrlChoice)
    ensures "http" <= BaseUrls[i]
  {
    if i == 0 { assert BaseUrls[i][..4] == "http"; }
    else if i == 1 { assert BaseUrls[i][..4] == "http"; }
    else if i == 2 { assert BaseUrls[i][..4] == "http"; }
    else if i == 3 { assert BaseUrls[i][..4] == "http"; }
    else { assert BaseUrls[i][..4] == "http"; }
  }

  lemma MissionLinkShape(draw: LinkDraw, step: int)
    ensures BaseUrls[draw.url] <= MissionLink(draw, step)
    ensures IsValidLink(Some(MissionLink(draw, step)))
  {
    PrefixOfJoin(BaseUrls[draw.url], LinkQuery(draw, step));
    BaseUrlsAreHttp(draw.url);
    PrefixTransitive("http", BaseUrls[draw.url], MissionLink(draw, step));
  }

  /** Position of the first `m` in `s`, or `|s|` when there is none. */
  function IndexOf(s: string, m: char): nat
    decreases |s|
  {
    if s == [] then 0 else if s[0] == m then 0 else 1 + IndexOf(s[1..], m)
  }

  lemma {:induction false} IndexOfJoin(a: string, x: string, m: char)
    requires m !in a && |x| > 0 && x[0] == m
    ensures IndexOf(a + x, m) == |a|
    decreases |a|
  {
    if a == [] {
      assert a + x == x;
    } else {
      assert (a + x)[1..] == a[1..] + x;
      IndexOfJoin(a[1..], x, m);
    }
  }

  /** Two strings that each continue with a marker character after a part free
      of it split at the same place. */
  lemma SplitAtMarker(a1: string, x1: string, a2: string, x2: string, m: char)
    requires a1 + x1 == a2 + x2
    requires m !in a1 && m !in a2
    requires |x1| > 0 && |x2| > 0 && x1[0] == m && x2[0] == m
    ensures a1 == a2 && x1 == x2
  {
    IndexOfJoin(a1, x1, m);
    IndexOfJoin(a2, x2, m);
    assert a1 == (a1 + x1)[..|a1|];
    assert a2 == (a2 + x2)[..|a2|];
    assert x1 == (a1 + x1)[|a1|..];
    assert x2 == (a2 + x2)[|a2|..];
  }

  /** No base URL has a query part of its own. */
  lemma BaseUrlsHaveNoQuery(i: UrlChoice)
    ensures '?' !in BaseUrls[i]
  {
    if i == 0 { assert '?' !in "https://www.youtube.com"; }
    else if i == 1 { assert '?' !in "https://www.github.com"; }
    else if i == 2 { assert '?' !in "https://www.stackoverflow.com"; }
    else if i == 3 { assert '?' !in "https://www.reddit.com"; }
    else { assert '?' !in "https://www.twitter.com"; }
  }

  /** A link names its mission: links for distinct steps differ, whatever the
      base URLs and clock readings drawn for them. */
  lemma MissionLinkStepInjective(d1: LinkDraw, d2: LinkDraw, s1: nat, s2: nat)
    requires MissionLink(d1, s1) == MissionLink(d2, s2)
    ensures s1 == s2
  {
    var q := "?ref=fatalbattles-vercel&mission=";
    var n1, n2 := NatString(s1), NatString(s2);
    var t1, t2 := "&t=" + DecimalString(d1.time), "&t=" + DecimalString(d2.time);
    assert LinkQuery(d1, s1) == q + (n1 + t1);
    assert LinkQuery(d2, s2) == q + (n2 + t2);
    BaseUrlsHaveNoQuery(d1.url);
    BaseUrlsHaveNoQuery(d2.url);
    SplitAtMarker(BaseUrls[d1.url], LinkQuery(d1, s1), BaseUrls[d2.url], LinkQuery(d2, s2), '?');
    assert n1 + t1 == (q + (n1 + t1))[|q|..];
    assert n2 + t2 == (q + (n2 + t2))[|q|..];
    SplitAtMarker(n1, t1, n2, t2, '&');
    ParseNatString(s1);
    ParseNatString(s2);
  }

  /** The links object once the loop has filled the steps before `step`. */
  function LinksBefore(draws: LinkDraws, step: int): map<int, string>
    requires 1 <= step <= 4
    decreases step
  {
    if step == 1 then map[]
    else LinksBefore(draws, step - 1)[step - 1 := MissionLink(draws[step - 2], step - 1)]
  }

  /** The links object `generateDailyLinks` returns: step -> link. */
  function DailyLinks(draws: LinkDraws): map<int, string>
  {
    LinksBefore(draws, 4)
  }

  /** Exactly the steps 1..3 have a link, each drawn from the base list and
      accepted by `isValidLink`. */
  lemma DailyLinksValid(draws: LinkDraws)
    ensures DailyLinks(draws).Keys == {1, 2, 3}
    ensures forall step :: step in DailyLinks(draws) ==>
              IsValidLink(Some(DailyLinks(draws)[step])) && BaseUrls[draws[step - 1].url] <= DailyLinks(draws)[step]
  {
    MissionLinkShape(draws[0], 1);
    MissionLinkShape(draws[1], 2);
    MissionLinkShape(draws[2], 3);
  }

  /** The loop of `generateDailyLinks`; what its result satisfies is
      DailyLinksValid. */
  method GenerateDailyLinks(draws: LinkDraws) returns (links: map<int, string>)
    ensures links == DailyLinks(draws)
  {
    links := map[];
    var step := 1;
    while step <= 3
      invariant 1 <= step <= 4
      invariant links == LinksBefore(draws, step)
    {
      links := links[step := MissionLink(draws[step - 1], step)];
      step := step + 1;
    }
    assert step == 4;
  }

  const Alphabet: string := "ABCDEFGHIJKLMNOPQRSTUVWXYZ0123456789"

  /** `Math.floor(Math.random() * chars.length)` is an index into Alphabet. */
  type KeyChoice = i: int | 0 <= i < 36

  /** One draw per key character. */
  type KeyDraws = d: seq<KeyChoice> | |d| == 16 witness seq(16, _ => 0)

  /** Length of the key after `i` characters: a '-' precedes characters 4, 8, 12. */
  function KeyLength(i: nat): nat
  {
    if i == 0 then 0 else i + (i - 1) / 4
  }

  /** The key once the loop has appended `n` characters. */
  function KeyPrefix(draws: KeyDraws, n: nat): string
    requires n <= 16
    decreases n
  {
    if n == 0 then ""
    else KeyPrefix(draws, n - 1) + (if n - 1 > 0 && (n - 1) % 4 == 0 then "-" else "") + [Alphabet[draws[n - 1]]]
  }

  /** The key `generateDailyKey` returns. */
  function DailyKey(draws: KeyDraws): string
  {
    KeyPrefix(draws, |draws|)
  }

  /** Where character i and the dash before it land. */
  lemma KeyPositions(i: nat)
    requires i < 16
    ensures (i + i / 4) % 5 == i % 4
    ensures KeyLength(i + 1) == i + i / 4 + 1
    ensures i > 0 && i % 4 == 0 ==> KeyLength(i) + 1 == i + i / 4 && KeyLength(i) % 5 == 4
    ensures !(i > 0 && i % 4 == 0) ==> KeyLength(i) == i + i / 4
  {
  }

  lemma {:induction false} KeyPrefixLength(draws: KeyDraws, n: nat)
    requires n <= 16
    ensures |KeyPrefix(draws, n)| == KeyLength(n)
    decreases n
  {
    if n > 0 {
      KeyPrefixLength(draws, n - 1);
      KeyPositions(n - 1);
    }
  }

  /** Character j of the draws sits at position j + j/4. */
  lemma {:induction false} KeyPrefixChars(draws: KeyDraws, n: nat)
    requires n <= 16
    ensures |KeyPrefix(draws, n)| == KeyLength(n)
    ensures forall j :: 0 <= j < n ==> KeyPrefix(draws, n)[j + j / 4] == Alphabet[draws[j]]
    decreases n
  {
    KeyPrefixLength(draws, n);
    if n > 0 {
      KeyPrefixChars(draws, n - 1);
      KeyPositions(n - 1);
      forall j | 0 <= j < n - 1
        ensures j + j / 4 < KeyLength(n - 1)
      {
        KeyPositions(j);
      }
    }
  }

  /** Every fifth position holds a dash. */
  lemma {:induction false} KeyPrefixLayout(draws: KeyDraws, n: nat)
    requires n <= 16
    ensures |KeyPrefix(draws, n)| == KeyLength(n)
    ensures forall p :: 0 <= p < KeyLength(n) && p % 5 == 4 ==> KeyPrefix(draws, n)[p] == '-'
    decreases n
  {
    KeyPrefixLength(draws, n);
    if n > 0 {
      KeyPrefixLayout(draws, n - 1);
      KeyPositions(n - 1);
    }
  }

  /** Nineteen characters, with dashes at positions 4, 9 and 14. */
  lemma DailyKeyLayout(draws: KeyDraws)
    ensures |DailyKey(draws)| == 19
    ensures DailyKey(draws)[4] == '-' && DailyKey(draws)[9] == '-' && DailyKey(draws)[14] == '-'
  {
    KeyPrefixLayout(draws, |draws|);
  }

  /** Drawn character i lands at position i + i/4; these sixteen positions
      are all the positions that do not hold a dash. */
  lemma DailyKeyChars(draws: KeyDraws)
    ensures |DailyKey(draws)| == 19
    ensures forall i :: 0 <= i < 16 ==> DailyKey(draws)[i + i / 4] == Alphabet[draws[i]]
  {
    KeyPrefixChars(draws, |draws|);
  }

  lemma DrawnInAlphabet(k: KeyChoice)
    ensures Alphabet[k] in Alphabet
  {
  }

  /** Every position that is not a dash holds a character of A-Z0-9. */
  lemma DailyKeyAlphabet(draws: KeyDraws)
    ensures |DailyKey(draws)| == 19
    ensures forall p :: 0 <= p < 19 && p != 4 && p != 9 && p != 14 ==> DailyKey(draws)[p] in Alphabet
  {
    DailyKeyChars(draws);
    forall p | 0 <= p < 19 && p != 4 && p != 9 && p != 14
      ensures DailyKey(draws)[p] in Alphabet
    {
      var i := if p < 4 then p else if p < 9 then p - 1 else if p < 14 then p - 2 else p - 3;
      assert i + i / 4 == p;
      DrawnInAlphabet(draws[i]);
    }
  }

  /** The loop of `generateDailyKey`; the shape of its result is
      DailyKeyLayout, DailyKeyChars and DailyKeyAlphabet. */
  method GenerateDailyKey(draws: KeyDraws) returns (key: string)
    ensures key == DailyKey(draws)
  {
    key := "";
    for i := 0 to 16
      invariant key == KeyPrefix(draws, i)
    {
      if i > 0 && i % 4 == 0 {
        key := key + "-";
      }
      key := key + [Alphabet[draws[i]]];
    }
  }
}
