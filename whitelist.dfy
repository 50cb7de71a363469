/**
  The whitelist resolver of app/wsinthechat.js: a fixed table of seven tiers,
  each listing two wallet addresses, is scanned in ascending tier order; every
  tier whose list holds the address (exact, case-sensitive string equality)
  is collected, and the result is rendered as "NOT WHITELISTED" or as
  "LEVEL a, LEVEL b WHITELISTED".
 */
module Whitelist {
  import opened Text

  const TierCount := 7

  /** Tiers[n - 1] holds the addresses of tier n. */
  const Tiers: seq<seq<string>> := [
    ["0x1234567890123456789012345678901234567890", "0xabcdefabcdefabcdefabcdefabcdefabcdefabcd"],
    ["0x9876543210987654321098765432109876543210", "0xfedcbafedcbafedcbafedcbafedcbafedcbafedc"],
    ["0xaaaaaaaaaaaaaaaaaaaaaaaaaaaaaaaaaaaaaaaa", "0xbbbbbbbbbbbbbbbbbbbbbbbbbbbbbbbbbbbbbbbb"],
    ["0xcccccccccccccccccccccccccccccccccccccccc", "0xdddddddddddddddddddddddddddddddddddddddd"],
    ["0xeeeeeeeeeeeeeeeeeeeeeeeeeeeeeeeeeeeeeeee", "0xffffffffffffffffffffffffffffffffffffffff"],
    ["0x1111111111111111111111111111111111111111", "0x2222222222222222222222222222222222222222"],
    ["0x3333333333333333333333333333333333333333", "0x4444444444444444444444444444444444444444"]
  ]

  const NotWhitelisted := "NOT WHITELISTED"
  const WhitelistedSuffix := " WHITELISTED"

  /**
    Tier n of the table lists the address (Array.prototype.includes: strict
    equality, no normalisation). The scan is written over any table, so that
    its properties do not depend on the particular addresses.
   */
  predicate InTier(table: seq<seq<string>>, address: string, n: int)
    requires 1 <= n <= |table|
  {
    address in table[n - 1]
  }

  predicate StrictlyAscending(levels: seq<nat>) {
    forall i, j :: 0 <= i < j < |levels| ==> levels[i] < levels[j]
  }

  /** The tiers among 1..n that list the address, in the order the scan visits them. */
  function LevelsUpTo(table: seq<seq<string>>, address: string, n: nat): (levels: seq<nat>)
    requires n <= |table|
    ensures |levels| <= n
    ensures forall k :: 0 <= k < |levels| ==> 1 <= levels[k] <= n
  {
    if n == 0 then []
    else LevelsUpTo(table, address, n - 1) + (if InTier(table, address, n) then [n] else [])
  }

  /** The tiers of the table that list the address. */
  function MatchedLevels(table: seq<seq<string>>, address: string): (levels: seq<nat>)
    ensures |levels| <= |table|
    ensures forall k :: 0 <= k < |levels| ==> 1 <= levels[k] <= |table|
    ensures StrictlyAscending(levels)
  {
    LevelsUpToAscending(table, address, |table|);
    LevelsUpTo(table, address, |table|)
  }

  /** "LEVEL n": the word, a space, and digits that read back as the level. */
  function LevelToken(level: nat): (token: string)
    ensures |token| > 6 && token[..6] == "LEVEL "
    ensures AllDigits(token[6..]) && DecimalValue(token[6..]) == level
  {
    DecimalRoundTrip(level);
    var token := "LEVEL " + DecimalString(level);
    assert token[6..] == DecimalString(level);
    token
  }

  function LevelTokens(levels: seq<nat>): (tokens: seq<string>)
    ensures |tokens| == |levels|
    ensures forall i :: 0 <= i < |levels| ==> tokens[i] == LevelToken(levels[i])
  {
    seq(|levels|, i requires 0 <= i < |levels| => LevelToken(levels[i]))
  }

  /** The message for a list of collected levels. */
  function Render(levels: seq<nat>): string {
    if |levels| == 0 then NotWhitelisted
    else Join(LevelTokens(levels), ", ") + WhitelistedSuffix
  }

  /** What the resolver answers for an address, given a table. */
  function ResolveIn(table: seq<seq<string>>, address: string): string {
    Render(MatchedLevels(table, address))
  }

  /** What the resolver answers for an address, with the source's table. */
  function Resolve(address: string): string {
    ResolveIn(Tiers, address)
  }

  /**
    The resolver as the source runs it: a loop over tiers 1..7 that appends
    each matching tier to a list, then the formatting of that list.
   */
  method InteractWithWLClick(address: string) returns (message: string)
    ensures message == Resolve(address)
  {
    var whitelistLevels: seq<nat> := [];
    for i := 1 to TierCount + 1
      invariant whitelistLevels == LevelsUpTo(Tiers, address, i - 1)
    {
      if address in Tiers[i - 1] {
        whitelistLevels := whitelistLevels + [i];
      }
    }
    if |whitelistLevels| == 0 {
      message := NotWhitelisted;
      return;
    }
    var levelText := Join(LevelTokens(whitelistLevels), ", ");
    message := levelText + WhitelistedSuffix;
  }

  // ----- What the scan collects -----

  lemma {:induction false} LevelsUpToAscending(table: seq<seq<string>>, address: string, n: nat)
    requires n <= |table|
    ensures StrictlyAscending(LevelsUpTo(table, address, n))
  {
    if n > 0 {
      LevelsUpToAscending(table, address, n - 1);
    }
  }

  lemma {:induction false} LevelsUpToMembers(table: seq<seq<string>>, address: string, n: nat)
    requires n <= |table|
    ensures forall m :: 1 <= m <= n ==> (m in LevelsUpTo(table, address, n) <==> InTier(table, address, m))
  {
    if n > 0 {
      LevelsUpToMembers(table, address, n - 1);
      var prev := LevelsUpTo(table, address, n - 1);
      forall m | 1 <= m <= n
        ensures m in LevelsUpTo(table, address, n) <==> InTier(table, address, m)
      {
        assert m in prev ==> m <= n - 1;
      }
    }
  }

  /**
    The collected levels are strictly ascending tier numbers of the table, and
    a tier is among them exactly when its list holds the address.
   */
  lemma MatchedLevelsExact(table: seq<seq<string>>, address: string)
    ensures StrictlyAscending(MatchedLevels(table, address))
    ensures forall k :: k in MatchedLevels(table, address) ==> 1 <= k <= |table| && InTier(table, address, k)
    ensures forall m :: 1 <= m <= |table| ==> (m in MatchedLevels(table, address) <==> InTier(table, address, m))
  {
    LevelsUpToAscending(table, address, |table|);
    LevelsUpToMembers(table, address, |table|);
  }

  /** Seen as a set, the collected levels are the tiers that list the address. */
  lemma MatchedLevelsAsSet(table: seq<seq<string>>, address: string)
    ensures (set k | k in MatchedLevels(table, address)) == (set m | 1 <= m <= |table| && InTier(table, address, m))
  {
    MatchedLevelsExact(table, address);
  }

  // ----- The rendered message -----

  /** Every message ends in " WHITELISTED" and is therefore not empty. */
  lemma RenderSuffix(levels: seq<nat>)
    ensures |Render(levels)| > |WhitelistedSuffix|
    ensures Render(levels)[|Render(levels)| - |WhitelistedSuffix|..] == WhitelistedSuffix
  {
    if |levels| > 0 {
      var tokens := LevelTokens(levels);
      assert tokens[0] <= Join(tokens, ", ");
    } else {
      assert NotWhitelisted == "NOT" + WhitelistedSuffix;
    }
  }

  /** The message is "NOT WHITELISTED" exactly when no level was collected. */
  lemma RenderNotWhitelistedIff(levels: seq<nat>)
    ensures Render(levels) == NotWhitelisted <==> levels == []
  {
    if levels != [] {
      var tokens := LevelTokens(levels);
      assert tokens[0] <= Join(tokens, ", ");
      assert Render(levels)[0] == 'L';
    }
  }

  /** One collected level renders as "LEVEL n WHITELISTED". */
  lemma RenderOneLevel(level: nat)
    ensures Render([level]) == "LEVEL " + DecimalString(level) + WhitelistedSuffix
  {
    assert LevelTokens([level]) == [LevelToken(level)];
  }

  /** Two levels are rendered ", "-separated in the order given. */
  lemma RenderTwoLevels(a: nat, b: nat)
    ensures Render([a, b]) == LevelToken(a) + ", " + LevelToken(b) + WhitelistedSuffix
  {
    var tokens := LevelTokens([a, b]);
    assert tokens == [LevelToken(a), LevelToken(b)];
    assert tokens[1..] == [LevelToken(b)];
    assert Join(tokens, ", ") == LevelToken(a) + ", " + LevelToken(b);
  }

  /**
    On a table that lists the same address in several tiers, every such tier
    is named, in ascending order: tiers 1 and 3 give "LEVEL 1, LEVEL 3 WHITELISTED".
   */
  lemma ResolveInMultiTier(table: seq<seq<string>>, a: string)
    requires table == [[a], [], [a]]
    ensures ResolveIn(table, a) == "LEVEL 1, LEVEL 3 WHITELISTED"
  {
    assert LevelsUpTo(table, a, 1) == [1];
    assert LevelsUpTo(table, a, 2) == [1];
    assert LevelsUpTo(table, a, 3) == [1, 3];
    RenderTwoLevels(1, 3);
    assert DecimalString(1) == "1" && DecimalString(3) == "3";
  }

  /** No address is listed by two different tiers of the table. */
  predicate TiersDisjoint(table: seq<seq<string>>) {
    forall address, m, n :: 0 <= m < |table| && 0 <= n < |table| && address in table[m] && address in table[n] ==> m == n
  }

  /** On a table whose tiers are disjoint, a scan of tiers 1..n collects the one tier m listing the address once it is reached. */
  lemma {:induction false} LevelsUpToSingle(table: seq<seq<string>>, address: string, m: nat, n: nat)
    requires TiersDisjoint(table) && 1 <= m <= |table| && InTier(table, address, m) && n <= |table|
    ensures LevelsUpTo(table, address, n) == if n < m then [] else [m]
  {
    if n > 0 {
      LevelsUpToSingle(table, address, m, n - 1);
      if n != m {
        assert !InTier(table, address, n);
      }
    }
  }

  /**
    On a table whose tiers are disjoint: an address listed by tier n yields
    "LEVEL n WHITELISTED"; any other address yields "NOT WHITELISTED".
   */
  lemma ResolveInDisjoint(table: seq<seq<string>>, address: string)
    requires TiersDisjoint(table)
    ensures forall n :: 1 <= n <= |table| && InTier(table, address, n) ==>
      ResolveIn(table, address) == "LEVEL " + DecimalString(n) + WhitelistedSuffix
    ensures (forall n :: 1 <= n <= |table| ==> !InTier(table, address, n)) ==>
      ResolveIn(table, address) == NotWhitelisted
  {
    forall n | 1 <= n <= |table| && InTier(table, address, n)
      ensures ResolveIn(table, address) == "LEVEL " + DecimalString(n) + WhitelistedSuffix
    {
      LevelsUpToSingle(table, address, n, |table|);
      RenderOneLevel(n);
    }
    ResolveInNotWhitelistedIff(table, address);
  }

  /** The answer is "NOT WHITELISTED" exactly when no tier of the table lists the address. */
  lemma ResolveInNotWhitelistedIff(table: seq<seq<string>>, address: string)
    ensures ResolveIn(table, address) == NotWhitelisted <==>
      forall n :: 1 <= n <= |table| ==> !InTier(table, address, n)
  {
    MatchedLevelsExact(table, address);
    RenderNotWhitelistedIff(MatchedLevels(table, address));
    if MatchedLevels(table, address) != [] {
      assert MatchedLevels(table, address)[0] in MatchedLevels(table, address);
    }
  }

  // ----- The table -----

  /** Characters 2 and 3 of every table entry already tell the fourteen entries apart. */
  function EntryKey(s: string): (char, char)
    requires |s| >= 4
  {
    (s[2], s[3])
  }

  /** The fourteen table entries are pairwise distinct. */
  lemma TableEntriesDistinct(m: int, i: int, n: int, j: int)
    requires 1 <= m <= TierCount && 0 <= i < |Tiers[m - 1]|
    requires 1 <= n <= TierCount && 0 <= j < |Tiers[n - 1]|
    requires Tiers[m - 1][i] == Tiers[n - 1][j]
    ensures m == n && i == j
  {
    assert forall t, k :: 0 <= t < TierCount && 0 <= k < |Tiers[t]| ==> |Tiers[t][k]| == 42;
    assert EntryKey(Tiers[m - 1][i]) == EntryKey(Tiers[n - 1][j]);
  }

  /** Since the entries are distinct, no address is listed by two tiers. */
  lemma TiersAreDisjoint()
    ensures TiersDisjoint(Tiers)
  {
    forall address, m, n | 0 <= m < |Tiers| && 0 <= n < |Tiers| && address in Tiers[m] && address in Tiers[n]
      ensures m == n
    {
      var i :| 0 <= i < |Tiers[m]| && Tiers[m][i] == address;
      var j :| 0 <= j < |Tiers[n]| && Tiers[n][j] == address;
      TableEntriesDistinct(m + 1, i, n + 1, j);
    }
  }

  // ----- The resolver on the source's table -----

  /**
    The whole behaviour of the resolver on the table as it stands: an address
    listed by tier n yields "LEVEL n WHITELISTED"; any other address yields
    "NOT WHITELISTED". The answer thus names at most one level.
   */
  lemma ResolveExact(address: string)
    ensures forall n :: 1 <= n <= TierCount && InTier(Tiers, address, n) ==>
      Resolve(address) == "LEVEL " + DecimalString(n) + WhitelistedSuffix
    ensures (forall n :: 1 <= n <= TierCount ==> !InTier(Tiers, address, n)) ==>
      Resolve(address) == NotWhitelisted
  {
    TiersAreDisjoint();
    ResolveInDisjoint(Tiers, address);
  }

  /** The resolver is total: every answer is non-empty and ends in "WHITELISTED". */
  lemma ResolveTotal(address: string)
    ensures |Resolve(address)| > |WhitelistedSuffix|
    ensures Resolve(address)[|Resolve(address)| - |WhitelistedSuffix|..] == WhitelistedSuffix
  {
    RenderSuffix(MatchedLevels(Tiers, address));
  }

  /** The answer is "NOT WHITELISTED" exactly when no tier lists the address. */
  lemma ResolveNotWhitelistedIff(address: string)
    ensures Resolve(address) == NotWhitelisted <==>
      forall n :: 1 <= n <= TierCount ==> !InTier(Tiers, address, n)
  {
    ResolveInNotWhitelistedIff(Tiers, address);
  }

  /** Every table entry is a 42-character address whose third character is a digit or a lower-case letter. */
  lemma TableEntryShape(n: int, k: int)
    requires 1 <= n <= TierCount && 0 <= k < |Tiers[n - 1]|
    ensures |Tiers[n - 1][k]| == 42
    ensures IsDigit(Tiers[n - 1][k][2]) || IsAsciiLower(Tiers[n - 1][k][2])
  {
  }

  /** An address listed by tier n is answered with "LEVEL n WHITELISTED". */
  lemma ResolveListed(n: int, k: int)
    requires 1 <= n <= TierCount && 0 <= k < |Tiers[n - 1]|
    ensures Resolve(Tiers[n - 1][k]) == "LEVEL " + DecimalString(n) + WhitelistedSuffix
  {
    ResolveExact(Tiers[n - 1][k]);
  }

  /** Every table entry has 42 characters, so an address of any other length, the empty one included, is not whitelisted. */
  lemma ResolveWrongLength(address: string)
    requires |address| != 42
    ensures Resolve(address) == NotWhitelisted
  {
    forall n | 1 <= n <= TierCount ensures !InTier(Tiers, address, n) {
      if InTier(Tiers, address, n) {
        var k :| 0 <= k < |Tiers[n - 1]| && Tiers[n - 1][k] == address;
        TableEntryShape(n, k);
      }
    }
    ResolveNotWhitelistedIff(address);
  }

  /**
    Matching is case-sensitive and nothing is normalised: an address whose hex
    digits start with an upper-case letter is not whitelisted, although its
    lower-case spelling may be.
   */
  lemma ResolveUpperCase(address: string)
    requires |address| > 2 && IsAsciiUpper(address[2])
    ensures Resolve(address) == NotWhitelisted
  {
    forall n | 1 <= n <= TierCount ensures !InTier(Tiers, address, n) {
      if InTier(Tiers, address, n) {
        var k :| 0 <= k < |Tiers[n - 1]| && Tiers[n - 1][k] == address;
        TableEntryShape(n, k);
      }
    }
    ResolveNotWhitelistedIff(address);
  }

  /** The second tier-1 address, in lower case, is whitelisted at level 1. */
  lemma ResolveLowerCaseListed(lower: string)
    requires lower == "0xabcdefabcdefabcdefabcdefabcdefabcdefabcd"
    ensures Resolve(lower) == "LEVEL 1 WHITELISTED"
  {
    assert lower == Tiers[0][1];
    ResolveListed(1, 1);
    assert DecimalString(1) == "1";
  }

  /** Its upper-case spelling is not whitelisted: matching is case-sensitive. */
  lemma ResolveUpperCaseNotListed(upper: string)
    requires upper == "0xABCDEFABCDEFABCDEFABCDEFABCDEFABCDEFABCD"
    ensures Resolve(upper) == NotWhitelisted
  {
    ResolveUpperCase(upper);
  }
}
