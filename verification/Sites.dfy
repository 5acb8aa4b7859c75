/** A browser tab's site: its identity, and the seed table matched by walking the site's suffixes. */
module Sites {
  import opened Prelude

  // ----- Identity -----------------------------------------------------------

  const WWW: string := "www."

  const PRIVATE_NETWORK_NAMES: seq<string> := ["localhost", "local", "home.arpa", "internal", "lan", "localdomain"]

  predicate IsDigit(c: char) { '0' <= c <= '9' }

  predicate IsHostChar(c: char) { 'a' <= c <= 'z' || IsDigit(c) || c == '.' || c == '-' }

  /** `under` is a name directly or indirectly under `name`. */
  predicate IsUnder(under: string, name: string) {
    |name| < |under| && under[|under| - |name|..] == name && under[|under| - |name| - 1] == '.'
  }

  predicate IsPrivate(site: string) {
    exists i :: 0 <= i < |PRIVATE_NETWORK_NAMES| &&
      (site == PRIVATE_NETWORK_NAMES[i] || IsUnder(site, PRIVATE_NETWORK_NAMES[i]))
  }

  /** No label between dots is empty. */
  predicate NoEmptyLabel(site: string) {
    && site != "" && site[0] != '.' && site[|site| - 1] != '.'
    && forall i :: 0 < i < |site| ==> !(site[i] == '.' && site[i - 1] == '.')
  }

  predicate HasDot(site: string) { exists i :: 0 <= i < |site| && site[i] == '.' }

  /** Everything after the last dot is digits. */
  predicate LastLabelNumeric(site: string) {
    site == "" || site[|site| - 1] == '.' || (IsDigit(site[|site| - 1]) && LastLabelNumeric(site[..|site| - 1]))
  }

  predicate IsSite(site: string) {
    && |site| <= 253
    && (forall i :: 0 <= i < |site| ==> IsHostChar(site[i]))
    && NoEmptyLabel(site)
    && HasDot(site)
    && !IsPrivate(site)
    && !LastLabelNumeric(site)
  }

  function StripWww(host: string): string { if WWW <= host then host[|WWW|..] else host }

  function SiteIdentity(host: string): Option<string> {
    var site := StripWww(Lower(host));
    if IsSite(site) then Some(site) else None
  }

  /** An identity is a storable site, and is its own identity exactly when it does not begin with a
      further `www.`. */
  lemma IdentityIsFixedUnlessWww(host: string)
    ensures var site := SiteIdentity(host);
      site.Some? ==> IsSite(site.value) && (SiteIdentity(site.value) == site <==> !(WWW <= site.value))
  {
    var site := SiteIdentity(host);
    if site.Some? {
      var s := site.value;
      forall i | 0 <= i < |s| ensures LowerChar(s[i]) == s[i] {
        assert IsHostChar(s[i]);
      }
      assert Lower(s) == s;
      assert WWW <= s ==> |StripWww(s)| < |s|;
    }
  }

  // ----- Identity by labels -------------------------------------------------

  /** The labels between dots. */
  function Labels(site: string): (parts: seq<string>)
    ensures parts != []
  {
    if site == "" then [""]
    else
      var init, last := Labels(site[..|site| - 1]), site[|site| - 1];
      if last == '.' then init + [""] else init[..|init| - 1] + [init[|init| - 1] + [last]]
  }

  predicate IsNumber(part: string) { forall i :: 0 <= i < |part| ==> IsDigit(part[i]) }

  lemma NumberSnoc(part: string, c: char)
    ensures IsNumber(part + [c]) <==> IsNumber(part) && IsDigit(c)
  {
    var all := part + [c];
    assert all[|part|] == c;
    assert forall i :: 0 <= i < |part| ==> all[i] == part[i];
  }

  lemma {:induction false} LastLabelMeans(site: string)
    ensures var parts := Labels(site);
      && (LastLabelNumeric(site) <==> IsNumber(parts[|parts| - 1]))
      && (parts[|parts| - 1] == "" <==> site == "" || site[|site| - 1] == '.')
  {
    if site != "" {
      var init := Labels(site[..|site| - 1]);
      LastLabelMeans(site[..|site| - 1]);
      NumberSnoc(init[|init| - 1], site[|site| - 1]);
    }
  }

  lemma {:induction false} HasDotSnoc(site: string)
    requires site != ""
    ensures HasDot(site) <==> HasDot(site[..|site| - 1]) || site[|site| - 1] == '.'
  {
    var init := site[..|site| - 1];
    if HasDot(init) {
      var i :| 0 <= i < |init| && init[i] == '.';
      assert site[i] == '.';
    }
    if HasDot(site) && site[|site| - 1] != '.' {
      var i :| 0 <= i < |site| && site[i] == '.';
      assert init[i] == '.';
    }
  }

  lemma {:induction false} DotsMean(site: string)
    ensures HasDot(site) <==> |Labels(site)| >= 2
  {
    if site != "" {
      DotsMean(site[..|site| - 1]);
      HasDotSnoc(site);
    }
  }

  ghost predicate NoneEmpty(parts: seq<string>) { forall i :: 0 <= i < |parts| ==> parts[i] != "" }

  /** No empty label so far, but for the last one, which the next character may fill. */
  predicate NoEmptyBut(site: string) {
    && (site != "" ==> site[0] != '.')
    && forall i :: 0 < i < |site| ==> !(site[i] == '.' && site[i - 1] == '.')
  }

  lemma {:induction false} EmptiesMean(site: string)
    ensures var parts := Labels(site); NoEmptyBut(site) <==> NoneEmpty(parts[..|parts| - 1])
  {
    if site != "" {
      var init := site[..|site| - 1];
      EmptiesMean(init);
      LastLabelMeans(init);
      EmptiesStep(site);
    }
  }

  lemma {:induction false} EmptiesStep(site: string)
    requires site != ""
    ensures var init := site[..|site| - 1];
      NoEmptyBut(site) <==> NoEmptyBut(init) && !(site[|site| - 1] == '.' && (init == "" || init[|init| - 1] == '.'))
  {
  }

  lemma {:induction false} NoEmptyLabelMeans(site: string)
    ensures NoEmptyLabel(site) <==> NoneEmpty(Labels(site))
  {
    EmptiesMean(site);
    LastLabelMeans(site);
    var parts := Labels(site);
    assert parts == parts[..|parts| - 1] + [parts[|parts| - 1]];
  }

  /** A site is at most 253 lower-case letters, digits, dots and hyphens, in two labels or more, none empty and the
      last not a number, and is not one of the names of a private network or under one. */
  lemma {:induction false} SiteMeans(site: string)
    ensures IsSite(site) <==>
      && |site| <= 253
      && (forall i :: 0 <= i < |site| ==> 'a' <= site[i] <= 'z' || '0' <= site[i] <= '9' || site[i] in ['.', '-'])
      && |Labels(site)| >= 2 && NoneEmpty(Labels(site)) && !IsNumber(Labels(site)[|Labels(site)| - 1])
      && !IsPrivate(site)
  {
    NoEmptyLabelMeans(site);
    DotsMean(site);
    LastLabelMeans(site);
  }

  /** A host's identity is its lower-case form, less one `www.` in front, if that is a site. */
  lemma IdentityMeans(host: string, site: string)
    ensures SiteIdentity(host) == Some(site) <==>
      && IsSite(site)
      && (Lower(host) == "www." + site || (Lower(host) == site && !("www." <= site)))
  {
    var lower := Lower(host);
    if "www." <= lower {
      assert lower == "www." + lower[4..];
      assert ("www." + site)[4..] == site;
    }
  }

  // ----- The seed table -----------------------------------------------------

  datatype Scope = HostOnly | WithSubdomains

  datatype Seed = Seed(host: string, scope: Scope, name: string, category: string)

  /** The first seed listed for a host. */
  function FirstSeed(seeds: seq<Seed>, host: string): Option<Seed> {
    if seeds == [] then None
    else
      var earlier := FirstSeed(seeds[..|seeds| - 1], host);
      if earlier.Some? then earlier
      else if seeds[|seeds| - 1].host == host then Some(seeds[|seeds| - 1])
      else None
  }

  type Matcher = map<string, Seed>

  ghost predicate IsMatcher(byHost: Matcher, seeds: seq<Seed>) {
    forall host ::
      && (host in byHost <==> FirstSeed(seeds, host).Some?)
      && (host in byHost ==> Some(byHost[host]) == FirstSeed(seeds, host))
  }

  method NewMatcher(seeds: seq<Seed>) returns (byHost: Matcher)
    ensures IsMatcher(byHost, seeds)
  {
    byHost := map[];
    for i := 0 to |seeds|
      invariant IsMatcher(byHost, seeds[..i])
    {
      assert seeds[..i + 1][..i] == seeds[..i];
      if seeds[i].host !in byHost {
        byHost := byHost[seeds[i].host := seeds[i]];
      }
    }
    assert seeds[..|seeds|] == seeds;
  }

  /** Of the seeds listed for a host, the first is found. */
  lemma {:induction false} FirstSeedIsFirst(seeds: seq<Seed>, host: string, i: nat)
    requires i < |seeds| && seeds[i].host == host && forall j :: 0 <= j < i ==> seeds[j].host != host
    ensures FirstSeed(seeds, host) == Some(seeds[i])
  {
    var init := seeds[..|seeds| - 1];
    if i < |init| {
      FirstSeedIsFirst(init, host, i);
    } else {
      NoneListed(init, host);
    }
  }

  lemma {:induction false} NoneListed(seeds: seq<Seed>, host: string)
    requires forall j :: 0 <= j < |seeds| ==> seeds[j].host != host
    ensures FirstSeed(seeds, host) == None
  {
    if seeds != [] {
      NoneListed(seeds[..|seeds| - 1], host);
    }
  }

  lemma {:induction false} FirstSeedIsListed(seeds: seq<Seed>, host: string)
    ensures FirstSeed(seeds, host).Some? ==>
              FirstSeed(seeds, host).value in seeds && FirstSeed(seeds, host).value.host == host
    ensures forall i :: 0 <= i < |seeds| && seeds[i].host == host ==> FirstSeed(seeds, host).Some?
  {
    if seeds != [] {
      FirstSeedIsListed(seeds[..|seeds| - 1], host);
    }
  }

  // ----- The walk -----------------------------------------------------------

  function FirstDot(s: string, k: nat): (r: Option<nat>)
    requires k <= |s|
    ensures r.Some? ==> k <= r.value < |s| && s[r.value] == '.'
    ensures forall j :: k <= j < (if r.Some? then r.value else |s|) ==> s[j] != '.'
    decreases |s| - k
  {
    if k == |s| then None else if s[k] == '.' then Some(k) else FirstDot(s, k + 1)
  }

  predicate Answers(byHost: Matcher, site: string, suffix: string) {
    suffix in byHost && (|suffix| == |site| || byHost[suffix].scope == WithSubdomains)
  }

  /** The walk from `suffix` on, longest first. */
  function LookupFrom(byHost: Matcher, site: string, suffix: string): Option<Seed>
    decreases |suffix|
  {
    if Answers(byHost, site, suffix) then Some(byHost[suffix])
    else
      var dot := FirstDot(suffix, 0);
      if dot.None? then None else LookupFrom(byHost, site, suffix[dot.value + 1..])
  }

  method Lookup(byHost: Matcher, site: string) returns (seed: Option<Seed>)
    ensures seed == LookupFrom(byHost, site, site)
  {
    var suffix := site;
    while true
      invariant LookupFrom(byHost, site, suffix) == LookupFrom(byHost, site, site)
      decreases |suffix|
    {
      if suffix in byHost {
        if |suffix| == |site| || byHost[suffix].scope == WithSubdomains {
          return Some(byHost[suffix]);
        }
      }
      var dot := FirstDot(suffix, 0);
      if dot.None? {
        return None;
      }
      suffix := suffix[dot.value + 1..];
    }
  }

  /** A seed reaches its own host, and, if it covers subdomains, every host under it. */
  predicate Reaches(seed: Seed, site: string) {
    seed.host == site || (seed.scope == WithSubdomains && IsUnder(site, seed.host))
  }

  ghost predicate Keyed(byHost: Matcher) {
    forall host :: host in byHost ==> byHost[host].host == host
  }

  /** The longest of the reaching seeds whose host is no longer than `limit`, or none if there is none. */
  ghost predicate IsLongestReaching(byHost: Matcher, site: string, limit: nat, r: Option<Seed>) {
    && (r.Some? ==>
          && r.value.host in byHost && byHost[r.value.host] == r.value
          && |r.value.host| <= limit && Reaches(r.value, site))
    && forall host :: host in byHost && |host| <= limit && Reaches(byHost[host], site) ==>
         r.Some? && (|host| < |r.value.host| || host == r.value.host)
  }

  /** `suffix` is the site or stands after one of its dots. */
  predicate IsWalked(site: string, suffix: string) { suffix == site || IsUnder(site, suffix) }

  /** A shorter host the site is under is no longer than what follows the suffix's first dot. */
  lemma {:induction false} NextSuffixKeeps(site: string, suffix: string, host: string)
    requires IsWalked(site, suffix) && IsUnder(site, host) && |host| < |suffix|
    ensures FirstDot(suffix, 0).Some? && |host| <= |suffix| - FirstDot(suffix, 0).value - 1
  {
    var gap := |site| - |suffix|;
    assert suffix == site[gap..];
    assert suffix[|suffix| - |host| - 1] == site[|site| - |host| - 1];
  }

  lemma SameLengthHosts(site: string, a: string, b: string)
    requires IsWalked(site, a) && IsWalked(site, b) && |a| == |b|
    ensures a == b
  {
  }

  lemma {:induction false} WalkIsLongest(byHost: Matcher, site: string, suffix: string)
    requires Keyed(byHost) && IsWalked(site, suffix)
    ensures IsLongestReaching(byHost, site, |suffix|, LookupFrom(byHost, site, suffix))
    decreases |suffix|
  {
    var r := LookupFrom(byHost, site, suffix);
    var dot := FirstDot(suffix, 0);
    if Answers(byHost, site, suffix) {
      forall host | host in byHost && |host| <= |suffix| && Reaches(byHost[host], site)
        ensures |host| < |r.value.host| || host == r.value.host
      {
        if |host| == |suffix| {
          SameLengthHosts(site, host, suffix);
        }
      }
    } else {
      if dot.Some? {
        var next := suffix[dot.value + 1..];
        NextIsWalked(site, suffix, dot.value);
        WalkIsLongest(byHost, site, next);
      }
      forall host | host in byHost && |host| <= |suffix| && Reaches(byHost[host], site)
        ensures r.Some? && (|host| < |r.value.host| || host == r.value.host)
      {
        if |host| == |suffix| {
          SameLengthHosts(site, host, suffix);
        } else {
          NextSuffixKeeps(site, suffix, host);
        }
      }
    }
  }

  lemma NextIsWalked(site: string, suffix: string, dot: nat)
    requires IsWalked(site, suffix) && dot < |suffix| && suffix[dot] == '.'
    ensures IsWalked(site, suffix[dot + 1..])
  {
    var gap := |site| - |suffix|;
    assert suffix == site[gap..];
    assert suffix[dot + 1..] == site[gap + dot + 1..];
  }

  ghost predicate DistinctHosts(seeds: seq<Seed>) {
    forall i, j :: 0 <= i < j < |seeds| ==> seeds[i].host != seeds[j].host
  }

  /** Main result: the walk ends with the one longest-host seed among the table's seeds that reach the
      site, passing over suffixes seeded for their own host only, or with nothing when none reaches. */
  lemma {:induction false} LookupIsLongestReaching(byHost: Matcher, seeds: seq<Seed>, site: string)
    requires IsMatcher(byHost, seeds)
    ensures IsLongestReaching(byHost, site, |site|, LookupFrom(byHost, site, site))
    ensures DistinctHosts(seeds) ==>
      var r := LookupFrom(byHost, site, site);
      && (r.Some? ==> r.value in seeds && Reaches(r.value, site))
      && forall i :: 0 <= i < |seeds| && Reaches(seeds[i], site) ==>
           r.Some? && (|seeds[i].host| < |r.value.host| || seeds[i] == r.value)
  {
    forall host | host in byHost ensures byHost[host].host == host && byHost[host] in seeds {
      FirstSeedIsListed(seeds, host);
    }
    WalkIsLongest(byHost, site, site);
    if DistinctHosts(seeds) {
      forall i | 0 <= i < |seeds| ensures seeds[i].host in byHost && byHost[seeds[i].host] == seeds[i] {
        FirstSeedIsListed(seeds, seeds[i].host);
      }
    }
  }

  // ----- The two site tiers -------------------------------------------------

  /** The seed tier: a browser tab with an identity some seed reaches. */
  function SeedTier(isBrowser: bool, declaredSite: Option<string>, byHost: Matcher): Option<Seed> {
    if !isBrowser || declaredSite.None? then None
    else
      var site := SiteIdentity(declaredSite.value);
      if site.None? then None else LookupFrom(byHost, site.value, site.value)
  }

  /** The inference tier: asks `infer` only about a site no seed answers for. */
  function InferenceTier(isBrowser: bool, declaredSite: Option<string>, byHost: Matcher,
                         infer: string -> Option<string>): Option<string>
  {
    if !isBrowser || declaredSite.None? then None
    else
      var site := SiteIdentity(declaredSite.value);
      if site.None? || LookupFrom(byHost, site.value, site.value).Some? then None else infer(site.value)
  }

  /** The seed tier answers a browser tab with the longest seed that reaches its site. The inference tier gives
      what `infer` says of the site, for every browser tab no seed reaches. Neither answers for anything else. */
  lemma TiersAnswer(isBrowser: bool, declaredSite: Option<string>, byHost: Matcher, infer: string -> Option<string>)
    requires Keyed(byHost)
    ensures var site := if isBrowser && declaredSite.Some? then SiteIdentity(declaredSite.value) else None;
            var seed := SeedTier(isBrowser, declaredSite, byHost);
      && (site.None? ==> seed == None && InferenceTier(isBrowser, declaredSite, byHost, infer) == None)
      && (site.Some? ==>
            && IsLongestReaching(byHost, site.value, |site.value|, seed)
            && InferenceTier(isBrowser, declaredSite, byHost, infer) ==
               (if seed.None? then infer(site.value) else None))
  {
    var site := if isBrowser && declaredSite.Some? then SiteIdentity(declaredSite.value) else None;
    if site.Some? {
      WalkIsLongest(byHost, site.value, site.value);
    }
  }

  /** With one table the two tiers split the tabs: the seed tier answers exactly for the sites a seed
      reaches, and the inference tier only for the others. */
  lemma TiersNeverBothAnswer(
    isBrowser: bool, declaredSite: Option<string>, seeds: seq<Seed>, byHost: Matcher, infer: string -> Option<string>)
    requires IsMatcher(byHost, seeds) && DistinctHosts(seeds)
    ensures var site := if declaredSite.Some? then SiteIdentity(declaredSite.value) else None;
            var reached := isBrowser && site.Some? &&
                           exists i :: 0 <= i < |seeds| && Reaches(seeds[i], site.value);
      && (SeedTier(isBrowser, declaredSite, byHost).Some? <==> reached)
      && (InferenceTier(isBrowser, declaredSite, byHost, infer).Some? ==> !reached)
  {
    if isBrowser && declaredSite.Some? && SiteIdentity(declaredSite.value).Some? {
      var site := SiteIdentity(declaredSite.value).value;
      LookupIsLongestReaching(byHost, seeds, site);
      var r := LookupFrom(byHost, site, site);
      if r.Some? {
        var i :| 0 <= i < |seeds| && seeds[i] == r.value;
        assert Reaches(seeds[i], site);
      }
    }
  }
}
