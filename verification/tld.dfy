/** The registrable-domain ("TLD") extraction of the selection repository:
    `find_tld_from_url`.  URL parsing follows the WHATWG URL Standard and is
    not modelled; its outcome is the input `ParsedUrl`.  The embedded
    public-suffix data file is the parameter `data`. */
module Tld {
  import opened Wrappers
  import opened Strings

  /** What `Url::parse` reports about a URL, reduced to what the extraction reads. */
  datatype ParsedUrl =
    | Invalid(reason: string)      // the URL does not parse
    | DomainHost(domain: string)   // the host is a domain name
    | OtherHost(host: string)      // the host is an IP address literal
    | NoHost                       // the URL has no host at all ("mailto:x")

  /** A candidate suffix counts as listed when its FIRST occurrence in the data
      starts the data or follows a line break; the character after it is never
      looked at. */
  predicate Found(needle: string, data: string)
  {
    match Find(data, needle)
    case None => false
    case Some(k) => k == 0 || data[k - 1] == '\n'
  }

  /** The labels from position `k` on, joined by dots. */
  function SuffixFrom(labels: seq<string>, k: nat): string
    requires k <= |labels|
  {
    Join(labels[k..], ".")
  }

  /** `t` is the suffix of `labels` that starts one label before the longest
      chain of listed suffixes: it is itself not listed, every shorter suffix is. */
  ghost predicate LongestListedPlusOne(labels: seq<string>, t: string, data: string)
  {
    exists k :: 0 <= k < |labels| && t == SuffixFrom(labels, k)
      && !Found(t, data)
      && forall j :: k < j < |labels| ==> Found(SuffixFrom(labels, j), data)
  }

  /** Every suffix of the host, the whole host included, is listed. */
  predicate AllListed(labels: seq<string>, data: string)
  {
    forall j :: 0 <= j < |labels| ==> Found(SuffixFrom(labels, j), data)
  }

  /** The label-by-label search loop.  `idx` is `part_idx`, `needle` the text
      searched for.  The result is the index of the first label of the answer,
      or a panic when the whole host is listed (`part_idx -= 1` underflows). */
  function SuffixLoop(labels: seq<string>, idx: nat, needle: string, data: string): (r: Result<nat>)
    requires idx < |labels|
    requires needle == SuffixFrom(labels, idx)
    requires forall j :: idx < j < |labels| ==> Found(SuffixFrom(labels, j), data)
    ensures r.Ok? ==> r.value <= idx && !Found(SuffixFrom(labels, r.value), data)
    ensures r.Ok? ==> forall j :: r.value < j < |labels| ==> Found(SuffixFrom(labels, j), data)
    ensures r.Err? ==> r.error.Panic?
    ensures r.Err? <==> AllListed(labels, data)
    decreases idx
  {
    if !Found(needle, data) then Ok(idx)
    else if idx == 0 then Err(Panic("attempt to subtract with overflow"))
    else
      var next := labels[idx - 1] + "." + needle;
      assert labels[idx - 1..] == [labels[idx - 1]] + labels[idx..];
      assert next == SuffixFrom(labels, idx - 1);
      SuffixLoop(labels, idx - 1, next, data)
  }

  /** `find_tld_from_url`. */
  function FindTld(url: ParsedUrl, data: string): (r: Result<string>)
    ensures url.Invalid? ==> r == Err(Failure(url.reason))
    ensures url.OtherHost? ==> r == Ok(url.host)
    ensures url.NoHost? ==> r.Err? && r.error.Panic?
    ensures url.DomainHost? && r.Ok? ==> LongestListedPlusOne(Split(url.domain, '.'), r.value, data)
    ensures url.DomainHost? ==> (r.Err? <==> AllListed(Split(url.domain, '.'), data))
  {
    match url
    case Invalid(reason) => Err(Failure(reason))
    case OtherHost(host) => Ok(host)
    case NoHost => Err(Panic("called `Option::unwrap()` on a `None` value"))
    case DomainHost(domain) =>
      var labels := Split(domain, '.');
      var last := |labels| - 1;
      assert labels[last..] == [labels[last]];
      var start := SuffixLoop(labels, last, labels[last], data);
      if start.Err? then Err(start.error)
      else
        var k := start.value;
        assert 0 <= k < |labels| && !Found(SuffixFrom(labels, k), data);
        assert forall j :: k < j < |labels| ==> Found(SuffixFrom(labels, j), data);
        assert LongestListedPlusOne(labels, SuffixFrom(labels, k), data);
        assert !AllListed(labels, data);
        Ok(SuffixFrom(labels, k))
  }

  /** Joining at a split point: the whole is the prefix, a separator, then the suffix. */
  lemma {:induction false} JoinAt(parts: seq<string>, sep: string, k: nat)
    requires 0 < k < |parts|
    ensures Join(parts, sep) == Join(parts[..k], sep) + sep + Join(parts[k..], sep)
    decreases k
  {
    if k == 1 {
      assert parts[..1] == [parts[0]];
      assert parts[1..] == parts[k..];
    } else {
      JoinAt(parts[1..], sep, k - 1);
      assert parts[1..][..k - 1] == parts[..k][1..];
      assert parts[1..][k - 1..] == parts[k..];
    }
  }

  /** The empty text is always listed: it occurs at offset 0. */
  lemma EmptyIsFound(data: string)
    ensures Found("", data)
  {
    assert OccursAt(data, "", 0);
  }

  /** A successful extraction is a non-empty suffix of the host name: the host
      is either the answer itself or some labels, a dot, and the answer. */
  lemma TldIsSuffixOfHost(domain: string, data: string)
    requires FindTld(DomainHost(domain), data).Ok?
    ensures var t := FindTld(DomainHost(domain), data).value;
      t != "" && (t == domain || exists p :: domain == p + "." + t)
  {
    var t := FindTld(DomainHost(domain), data).value;
    var labels := Split(domain, '.');
    var k :| 0 <= k < |labels| && t == SuffixFrom(labels, k) && !Found(t, data);
    EmptyIsFound(data);
    JoinSplit(domain, '.');
    if k == 0 {
      assert labels[0..] == labels;
    } else {
      JoinAt(labels, ".", k);
      assert domain == Join(labels[..k], ".") + "." + t;
    }
  }

  /** Only the left boundary is checked: a needle that starts the data is
      listed whatever follows it ("co" counts as listed in "com\n"). */
  lemma LeftBoundaryOnly(needle: string, rest: string)
    ensures Found(needle, needle + rest)
  {
    assert OccursAt(needle + rest, needle, 0);
  }
}
