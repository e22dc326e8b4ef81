/** Instant domains: `<slug>-<suffix>-<dashed ip>.nip.io` (`slugify`, `buildNipIoHost`). */
module NipIo {
  import opened Text

  /** [a-z0-9] */
  predicate IsSlugChar(c: char) {
    'a' <= c <= 'z' || '0' <= c <= '9'
  }

  /** The text after its leading characters outside [a-z0-9]. */
  function Skip(s: string): (rest: string)
    ensures |rest| <= |s| && (rest != "" ==> IsSlugChar(rest[0]))
  {
    if s == "" || IsSlugChar(s[0]) then s else Skip(s[1..])
  }

  /** Every run of characters outside [a-z0-9] becomes one dash. */
  function Dashed(s: string): (t: string)
    decreases |s|
  {
    if s == "" then ""
    else if IsSlugChar(s[0]) then [s[0]] + Dashed(s[1..])
    else "-" + Dashed(Skip(s[1..]))
  }

  /** The text without the dashes at its start. */
  function StripStart(s: string): (t: string) {
    if s != "" && s[0] == '-' then StripStart(s[1..]) else s
  }

  /** The text without the dashes at its end. */
  function StripEnd(s: string): (t: string) {
    if s != "" && s[|s| - 1] == '-' then StripEnd(s[..|s| - 1]) else s
  }

  const SLUG_LENGTH: nat := 30

  function Slice(s: string, length: nat): (t: string) {
    if |s| <= length then s else s[..length]
  }

  /** `lower` stands for toLowerCase. */
  function Slugify(lower: string -> string, name: string): (slug: string) {
    var s := StripEnd(Slice(StripEnd(StripStart(Dashed(lower(name)))), SLUG_LENGTH));
    if s == "" then "app" else s
  }

  // ------------------------------------------------------------------
  // What a slug is
  // ------------------------------------------------------------------

  /** Runs of [a-z0-9] with single dashes between them, and perhaps a dash at either end. */
  predicate SingleDashes(s: string) {
    && (forall k | 0 <= k < |s| :: IsSlugChar(s[k]) || s[k] == '-')
    && (forall k | 0 < k < |s| :: s[k - 1] == '-' ==> s[k] != '-')
  }

  /** 1 to 30 characters, runs of [a-z0-9] separated by single dashes. */
  predicate IsSlug(s: string) {
    SingleDashes(s) && 1 <= |s| <= SLUG_LENGTH && s[0] != '-' && s[|s| - 1] != '-'
  }

  lemma {:induction false} DashedIsSingle(s: string)
    ensures SingleDashes(Dashed(s))
    ensures Dashed(s) != "" && Dashed(s)[0] == '-' ==> !IsSlugChar(s[0])
    decreases |s|
  {
    if s == "" {
    } else if IsSlugChar(s[0]) {
      DashedIsSingle(s[1..]);
    } else {
      DashedIsSingle(Skip(s[1..]));
    }
  }

  lemma {:induction false} StripStartKeeps(s: string)
    requires SingleDashes(s)
    ensures SingleDashes(StripStart(s)) && (StripStart(s) != "" ==> StripStart(s)[0] != '-')
  {
    if s != "" && s[0] == '-' { StripStartKeeps(s[1..]); }
  }

  lemma {:induction false} StripEndKeeps(s: string)
    requires SingleDashes(s)
    ensures SingleDashes(StripEnd(s)) && |StripEnd(s)| <= |s| && StripEnd(s) <= s
    ensures StripEnd(s) != "" ==> StripEnd(s)[|StripEnd(s)| - 1] != '-'
  {
    if s != "" && s[|s| - 1] == '-' { StripEndKeeps(s[..|s| - 1]); }
  }

  /** Whatever the name, and whatever its lower-case form, the result is a slug. */
  lemma SlugifyGivesSlug(lower: string -> string, name: string)
    ensures IsSlug(Slugify(lower, name))
  {
    var dashed := Dashed(lower(name));
    DashedIsSingle(lower(name));
    StripStartKeeps(dashed);
    StripEndKeeps(StripStart(dashed));
    var trimmed := StripEnd(StripStart(dashed));
    StripEndKeeps(Slice(trimmed, SLUG_LENGTH));
  }

  /** Lower-casing leaves a text without capitals alone. */
  ghost predicate KeepsSlugs(lower: string -> string) {
    forall s | SingleDashes(s) :: lower(s) == s
  }

  lemma {:induction false} DashedKeeps(s: string)
    requires SingleDashes(s) && (s != "" ==> s[|s| - 1] != '-')
    ensures Dashed(s) == s
    decreases |s|
  {
    if s != "" {
      var rest := s[1..];
      assert SingleDashes(rest) && s == [s[0]] + rest;
      DashedKeeps(rest);
      if s[0] == '-' { assert IsSlugChar(s[1]) && Skip(rest) == rest; }
    }
  }

  /** A name is left alone exactly when it is a slug already; so slugify is idempotent. */
  lemma SlugsAreFixed(lower: string -> string, name: string)
    requires KeepsSlugs(lower)
    ensures Slugify(lower, name) == name <==> IsSlug(name)
    ensures Slugify(lower, Slugify(lower, name)) == Slugify(lower, name)
  {
    SlugifyGivesSlug(lower, name);
    SlugIsFixed(lower, Slugify(lower, name));
    if IsSlug(name) { SlugIsFixed(lower, name); }
  }

  lemma SlugIsFixed(lower: string -> string, slug: string)
    requires KeepsSlugs(lower) && IsSlug(slug)
    ensures Slugify(lower, slug) == slug
  {
    assert lower(slug) == slug;
    DashedKeeps(slug);
  }

  // ------------------------------------------------------------------
  // What a slug is made of
  // ------------------------------------------------------------------

  /** The text with a dash for every character outside [a-z0-9]. */
  function Blanked(s: string): (t: string)
    ensures |t| == |s| && forall k | 0 <= k < |s| :: t[k] == if IsSlugChar(s[k]) then s[k] else '-'
  {
    if s == "" then "" else [if IsSlugChar(s[0]) then s[0] else '-'] + Blanked(s[1..])
  }

  /** The words of a name: its runs of [a-z0-9], in their order. */
  function Words(s: string): (words: seq<string>) {
    NonEmpty(Split(Blanked(s), '-'))
  }

  lemma {:induction false} SkipKeepsWords(s: string)
    ensures Words(Skip(s)) == Words(s)
  {
    if s != "" && !IsSlugChar(s[0]) {
      SkipKeepsWords(s[1..]);
      assert Blanked(s)[1..] == Blanked(s[1..]);
      assert ([""] + Split(Blanked(s[1..]), '-'))[1..] == Split(Blanked(s[1..]), '-');
    }
  }

  /** The first part and the words behind it are the same, whether runs become one dash or many. */
  ghost predicate SameWords(s: string, t: string) {
    var a, b := Split(s, '-'), Split(t, '-');
    a[0] == b[0] && NonEmpty(a[1..]) == NonEmpty(b[1..])
  }

  lemma SameWordsOnward(c: char, s: string, t: string)
    requires c != '-' && SameWords(s, t)
    ensures SameWords([c] + s, [c] + t)
  {
    assert ([c] + s)[1..] == s && ([c] + t)[1..] == t;
  }

  lemma {:induction false} DashedKeepsWords(s: string)
    ensures SameWords(Dashed(s), Blanked(s))
    decreases |s|
  {
    if s == "" {
    } else if IsSlugChar(s[0]) {
      DashedKeepsWords(s[1..]);
      SameWordsOnward(s[0], Dashed(s[1..]), Blanked(s[1..]));
    } else {
      var rest := Skip(s[1..]);
      DashedKeepsWords(rest);
      SkipKeepsWords(s[1..]);
      DashThenWords(Dashed(rest), Blanked(rest), Blanked(s[1..]));
    }
  }

  lemma PartsOfSame(s: string, t: string)
    requires SameWords(s, t)
    ensures NonEmpty(Split(s, '-')) == NonEmpty(Split(t, '-'))
  {
  }

  lemma DashThenWords(s: string, t: string, u: string)
    requires SameWords(s, t) && NonEmpty(Split(t, '-')) == NonEmpty(Split(u, '-'))
    ensures SameWords("-" + s, "-" + u)
  {
    PartsOfSame(s, t);
    assert ("-" + s)[1..] == s && ("-" + u)[1..] == u;
    assert ([""] + Split(s, '-'))[1..] == Split(s, '-') && ([""] + Split(u, '-'))[1..] == Split(u, '-');
  }

  lemma {:induction false} StripStartKeepsWords(s: string)
    ensures NonEmpty(Split(StripStart(s), '-')) == NonEmpty(Split(s, '-'))
  {
    if s != "" && s[0] == '-' {
      StripStartKeepsWords(s[1..]);
      assert ([""] + Split(s[1..], '-'))[1..] == Split(s[1..], '-');
    }
  }

  lemma {:induction false} StripEndKeepsWords(s: string)
    ensures NonEmpty(Split(StripEnd(s), '-')) == NonEmpty(Split(s, '-'))
  {
    if s != "" && s[|s| - 1] == '-' {
      var front := s[..|s| - 1];
      StripEndKeepsWords(front);
      SplitAt(front, "", '-');
      assert front + ['-'] + "" == s;
      NonEmptyConcat(Split(front, '-'), [""]);
      assert NonEmpty([""]) == [];
    }
  }

  /** Between single dashes, and without dashes at the ends, no part is empty. */
  lemma {:induction false} NoEmptyParts(s: string)
    requires SingleDashes(s) && s != "" && s[0] != '-' && s[|s| - 1] != '-'
    ensures NonEmpty(Split(s, '-')) == Split(s, '-') && Split(s, '-')[0] != ""
    decreases |s|
  {
    if |s| == 1 {
      assert s[1..] == "";
    } else if s[1] != '-' {
      assert SingleDashes(s[1..]);
      NoEmptyParts(s[1..]);
    } else {
      var rest := s[2..];
      assert forall k | 0 <= k < |rest| :: rest[k] == s[k + 2];
      NoEmptyParts(rest);
      SplitFirst([s[0]], rest, '-');
      assert [s[0]] + ['-'] + rest == s;
      assert ([[s[0]]] + Split(rest, '-'))[1..] == Split(rest, '-');
    }
  }

  lemma StrippedIsJoined(s: string)
    requires SingleDashes(s)
    ensures var t := StripEnd(StripStart(s));
            SingleDashes(t) && (t != "" ==> t[0] != '-') && t == Join(NonEmpty(Split(s, '-')), '-')
  {
    var t := StripEnd(StripStart(s));
    StripStartKeeps(s);
    StripEndKeeps(StripStart(s));
    StripStartKeepsWords(s);
    StripEndKeepsWords(StripStart(s));
    if t == "" {
      assert NonEmpty([""]) == [];
    } else {
      NoEmptyParts(t);
      SplitParts(t, '-');
    }
  }

  /**
   The slug is made of the words of the name and nothing else, joined by single dashes; it is cut off
   after 30 characters, or 29 when a dash would be the last one.  A name without words is "app".
   */
  lemma SlugIsMadeOfWords(lower: string -> string, name: string)
    ensures var joined := Join(Words(lower(name)), '-');
            && (joined == "" ==> Slugify(lower, name) == "app")
            && (1 <= |joined| <= 30 ==> Slugify(lower, name) == joined)
            && (|joined| > 30 ==> Slugify(lower, name) == joined[..if joined[29] == '-' then 29 else 30])
  {
    var dashed := Dashed(lower(name));
    DashedIsSingle(lower(name));
    DashedKeepsWords(lower(name));
    PartsOfSame(dashed, Blanked(lower(name)));
    StrippedIsJoined(dashed);
    CutOff(Join(Words(lower(name)), '-'));
    StripEndKeeps(StripStart(dashed));
    StripStartKeeps(dashed);
  }

  lemma CutOff(t: string)
    requires SingleDashes(t) && (t != "" ==> t[0] != '-')
    ensures |t| > 30 ==> StripEnd(t[..30]) == t[..if t[29] == '-' then 29 else 30]
  {
    if |t| > 30 && t[29] == '-' {
      assert t[..30][..29] == t[..29] && t[28] != '-';
    }
  }

  // ------------------------------------------------------------------
  // The host
  // ------------------------------------------------------------------

  predicate IsDigits(s: string) {
    1 <= |s| <= 3 && forall c <- s :: '0' <= c <= '9'
  }

  /** The shape of the public IP the platform accepts. */
  predicate IsIp(ip: string) {
    var parts := Split(ip, '.');
    |parts| == 4 && forall part <- parts :: IsDigits(part)
  }

  /** Three random bytes in hexadecimal. */
  predicate IsSuffix(s: string) {
    |s| == 6 && forall c <- s :: '0' <= c <= '9' || 'a' <= c <= 'f'
  }

  /** The IP with a dash for every dot. */
  function DashedIp(ip: string): (s: string)
    ensures |s| == |ip| && forall k | 0 <= k < |ip| :: s[k] == if ip[k] == '.' then '-' else ip[k]
  {
    if ip == "" then "" else [if ip[0] == '.' then '-' else ip[0]] + DashedIp(ip[1..])
  }

  function Label(slug: string, suffix: string, ip: string): string {
    slug + "-" + suffix + "-" + DashedIp(ip)
  }

  function BuildNipIoHost(lower: string -> string, serviceName: string, publicIp: string,
                          randomSuffix: string): (host: string) {
    Label(Slugify(lower, serviceName), randomSuffix, publicIp) + ".nip.io"
  }

  /** One label of hostnamePattern: 1 to 63 letters, digits and dashes, no dash at either end. */
  predicate IsLabel(part: string) {
    && 1 <= |part| <= 63 && part[0] != '-' && part[|part| - 1] != '-'
    && forall c <- part :: 'a' <= c <= 'z' || 'A' <= c <= 'Z' || '0' <= c <= '9' || c == '-'
  }

  /** hostnameSchema: at most 253 characters, two or more labels separated by dots. */
  predicate IsHostname(host: string) {
    var parts := Split(host, '.');
    |host| <= 253 && |parts| >= 2 && forall part <- parts :: IsLabel(part)
  }

  lemma FourParts(parts: seq<string>)
    requires |parts| == 4 && forall part <- parts :: IsDigits(part)
    ensures 7 <= |Join(parts, '.')| <= 15
    ensures Join(parts, '.') == parts[0] + "." + (parts[1] + "." + (parts[2] + "." + parts[3]))
  {
    assert parts[1..][1..] == parts[2..] && parts[2..][1..] == parts[3..];
    assert Join(parts[3..], '.') == parts[3];
    assert Join(parts[2..], '.') == parts[2] + "." + parts[3];
    assert Join(parts[1..], '.') == parts[1] + "." + (parts[2] + "." + parts[3]);
    assert parts[0] in parts && parts[1] in parts && parts[2] in parts && parts[3] in parts;
  }

  lemma DashedIpAround(first: string, rest: string)
    requires '.' !in first
    ensures DashedIp(first + ['.'] + rest) == first + ['-'] + DashedIp(rest)
  {
    var s, t := first + ['.'] + rest, first + ['-'] + DashedIp(rest);
    forall k | 0 <= k < |s|
      ensures DashedIp(s)[k] == t[k]
    {
      if k < |first| { assert s[k] == first[k]; }
    }
  }

  /** The dashes of the dashed IP are the dots of the IP. */
  lemma {:induction false} DashedIpJoins(parts: seq<string>)
    requires forall part <- parts :: '.' !in part
    ensures DashedIp(Join(parts, '.')) == Join(parts, '-')
  {
    if parts == [] {
    } else if |parts| == 1 {
      NoDots(parts[0]);
    } else {
      DashedIpJoins(parts[1..]);
      DashedIpAround(parts[0], Join(parts[1..], '.'));
    }
  }

  lemma NoDots(s: string)
    requires '.' !in s
    ensures DashedIp(s) == s
  {
    forall k | 0 <= k < |s| ensures DashedIp(s)[k] == s[k] { assert s[k] in s; }
  }

  lemma DashedIpParts(ip: string)
    requires IsIp(ip)
    ensures Split(DashedIp(ip), '-') == Split(ip, '.')
  {
    SplitParts(ip, '.');
    DashedPartsBack(Split(ip, '.'));
  }

  lemma DashedPartsBack(parts: seq<string>)
    requires parts != [] && forall part <- parts :: IsDigits(part)
    ensures Split(DashedIp(Join(parts, '.')), '-') == parts
  {
    forall part <- parts ensures '-' !in part && '.' !in part { assert IsDigits(part); }
    DashedIpJoins(parts);
    SplitJoin(parts, '-');
  }

  lemma IpEnds(ip: string)
    requires IsIp(ip)
    ensures 7 <= |ip| <= 15 && IsSlugChar(ip[|ip| - 1])
  {
    SplitParts(ip, '.');
    LastOfFour(Split(ip, '.'));
  }

  lemma LastOfFour(parts: seq<string>)
    requires |parts| == 4 && forall part <- parts :: IsDigits(part)
    ensures var ip := Join(parts, '.'); 7 <= |ip| <= 15 && IsSlugChar(ip[|ip| - 1])
  {
    FourParts(parts);
    assert IsDigits(parts[3]) && parts[3][|parts[3]| - 1] in parts[3];
    var ip := Join(parts, '.');
    assert ip[|ip| - 1] == parts[3][|parts[3]| - 1];
  }

  /** The label can be read back: its last four parts are the IP, the one before is the suffix, the others are
      the slug. */
  lemma LabelParts(slug: string, suffix: string, ip: string)
    requires IsSuffix(suffix) && IsIp(ip)
    ensures Split(Label(slug, suffix, ip), '-') == Split(slug, '-') + [suffix] + Split(ip, '.')
  {
    DashedIpParts(ip);
    assert '-' !in suffix;
    SplitAround(slug, suffix, DashedIp(ip), '-');
  }

  /** Two hosts are the same only for the same slug, suffix and IP. */
  lemma HostsDiffer(slug: string, suffix: string, ip: string, slug': string, suffix': string, ip': string)
    requires IsSuffix(suffix) && IsIp(ip) && IsSuffix(suffix') && IsIp(ip')
    requires Label(slug, suffix, ip) + ".nip.io" == Label(slug', suffix', ip') + ".nip.io"
    ensures slug == slug' && suffix == suffix' && ip == ip'
  {
    var a, b := Label(slug, suffix, ip), Label(slug', suffix', ip');
    assert a == (a + ".nip.io")[..|a|] && b == (b + ".nip.io")[..|b|];
    LabelParts(slug, suffix, ip);
    LabelParts(slug', suffix', ip');
    SameTail(Split(slug, '-'), suffix, Split(ip, '.'), Split(slug', '-'), suffix', Split(ip', '.'));
    SplitParts(slug, '-');
    SplitParts(slug', '-');
    SplitParts(ip, '.');
    SplitParts(ip', '.');
  }

  lemma SameTail(a: seq<string>, x: string, b: seq<string>, a': seq<string>, x': string, b': seq<string>)
    requires |b| == |b'| && a + [x] + b == a' + [x'] + b'
    ensures a == a' && x == x' && b == b'
  {
    var s := a + [x] + b;
    assert a == s[..|a|] && x == s[|a|] && b == s[|a| + 1..];
    assert a' == s[..|a|] && x' == s[|a|] && b' == s[|a| + 1..];
  }

  lemma LabelIsValid(slug: string, suffix: string, ip: string)
    requires IsSlug(slug) && IsSuffix(suffix) && IsIp(ip)
    ensures IsLabel(Label(slug, suffix, ip)) && |Label(slug, suffix, ip)| <= 53
    ensures '.' !in Label(slug, suffix, ip)
  {
    IpEnds(ip);
    LabelChars(slug, suffix, ip);
    var l := Label(slug, suffix, ip);
    assert l[0] == slug[0];
    assert l[|l| - 1] == DashedIp(ip)[|ip| - 1] == ip[|ip| - 1];
  }

  lemma LabelChars(slug: string, suffix: string, ip: string)
    requires IsSlug(slug) && IsSuffix(suffix) && IsIp(ip)
    ensures forall c <- Label(slug, suffix, ip) :: IsSlugChar(c) || c == '-'
  {
    forall c <- ip ensures c == '.' || IsSlugChar(c) { IpChars(ip, c); }
    forall c <- DashedIp(ip) ensures IsSlugChar(c) || c == '-' { }
  }

  lemma IpChars(ip: string, c: char)
    requires IsIp(ip) && c in ip
    ensures c == '.' || '0' <= c <= '9'
  {
    var parts := Split(ip, '.');
    SplitParts(ip, '.');
    FourParts(parts);
    assert IsDigits(parts[0]) && IsDigits(parts[1]) && IsDigits(parts[2]) && IsDigits(parts[3]);
  }

  /** Every generated host is a valid domain name, for any service name, accepted IP and suffix. */
  lemma HostIsValid(lower: string -> string, serviceName: string, publicIp: string, randomSuffix: string)
    requires IsIp(publicIp) && IsSuffix(randomSuffix)
    ensures var host := BuildNipIoHost(lower, serviceName, publicIp, randomSuffix);
            && IsHostname(host) && |host| <= 60
            && Split(host, '.') == [Label(Slugify(lower, serviceName), randomSuffix, publicIp), "nip", "io"]
            && |Split(host, '.')[0]| <= 53
  {
    SlugifyGivesSlug(lower, serviceName);
    var first := Label(Slugify(lower, serviceName), randomSuffix, publicIp);
    LabelIsValid(Slugify(lower, serviceName), randomSuffix, publicIp);
    HostParts(first);
    assert IsLabel("nip") && IsLabel("io");
  }

  lemma HostParts(first: string)
    requires '.' !in first
    ensures Split(first + ".nip.io", '.') == [first, "nip", "io"]
  {
    SplitThree(first, "nip", "io", '.');
    assert first + ".nip.io" == first + ['.'] + "nip" + ['.'] + "io";
  }
}
