/** The scraper's settings: `MagnetConfig` and its normalisation in
    `__post_init__` (main.py:15-36), and the plugin's `_build_config` /
    `_coerce_int`, which read the stored settings with defaults
    (main.py:215-247). */
module Config {
  import opened Wrappers
  import Text
  import Decimal

  /** The two verification cookies every session sends. */
  const FixedCookies: map<string, string> :=
    map["sssfwz2" := "qwsdsddsdsdse", "aywcUid" := "lwgkvwDiYQ_20211009155217"]

  const DefaultBaseUrl := "https://clg2.clgapp1.xyz"
  const DefaultSearchPath := "/cllj.php"
  const DefaultMaxResults := 20
  const DefaultPageSize := 5
  const DefaultRequestTimeout := 15

  datatype MagnetConfig = MagnetConfig(
    baseUrl: string,
    searchPath: string,
    maxResults: int,
    pageSize: int,
    requestTimeout: int,
    captchaCookies: map<string, string>)

  /** The shape `__post_init__` leaves a configuration in. */
  predicate IsNormal(c: MagnetConfig) {
    && !Text.EndsWith(c.baseUrl, "/")
    && Text.StartsWith(c.searchPath, "/")
    && c.captchaCookies == FixedCookies
  }

  /** `MagnetConfig.__post_init__`: pin the cookies, strip every trailing `/`
      from the base URL, and give the search path a leading `/`. */
  function Normalize(c: MagnetConfig): (r: MagnetConfig)
    ensures IsNormal(r)
    ensures Text.StartsWith(c.baseUrl, r.baseUrl)
    ensures forall i :: |r.baseUrl| <= i < |c.baseUrl| ==> c.baseUrl[i] == '/'
    ensures !Text.EndsWith(c.baseUrl, "/") ==> r.baseUrl == c.baseUrl
    ensures r.searchPath == if Text.StartsWith(c.searchPath, "/") then c.searchPath else "/" + c.searchPath
    ensures r.maxResults == c.maxResults && r.pageSize == c.pageSize && r.requestTimeout == c.requestTimeout
  {
    var base := if Text.EndsWith(c.baseUrl, "/") then Text.RStripChar(c.baseUrl, '/') else c.baseUrl;
    var path := if Text.StartsWith(c.searchPath, "/") then c.searchPath else "/" + c.searchPath;
    assert base == "" || base[|base| - 1] != '/';
    assert Text.StartsWith(path, "/") by { assert path[..1] == "/"; }
    c.(baseUrl := base, searchPath := path, captchaCookies := FixedCookies)
  }

  /** Normalising an already normal configuration changes nothing, so
      normalising twice is the same as normalising once. */
  lemma NormalizeIdempotent(c: MagnetConfig)
    ensures IsNormal(c) ==> Normalize(c) == c
    ensures Normalize(Normalize(c)) == Normalize(c)
  {
  }

  /** A stored setting value: a number, or text that `int()` may parse. */
  datatype Setting = IntValue(n: int) | StrValue(s: string)

  /** The plugin's stored settings; `None` is a key that is absent. */
  datatype Settings = Settings(
    baseUrl: Option<string>,
    searchPath: Option<string>,
    maxResults: Option<Setting>,
    pageSize: Option<Setting>,
    requestTimeout: Option<Setting>)

  /** `_coerce_int(store.get(key, default), default)`: the number itself, the
      value of text that `int()` accepts, and otherwise the default. */
  function CoerceInt(v: Option<Setting>, default: int): (r: int)
    ensures v.None? ==> r == default
    ensures v.Some? && v.value.IntValue? ==> r == v.value.n
    ensures v.Some? && v.value.StrValue? && Decimal.ParseInt(v.value.s).None? ==> r == default
    ensures v.Some? && v.value.StrValue? && Decimal.ParseInt(v.value.s).Some? ==> r == Decimal.ParseInt(v.value.s).value
  {
    match v
    case None => default
    case Some(IntValue(n)) => n
    case Some(StrValue(s)) => Decimal.ParseInt(s).GetOr(default)
  }

  /** A number stored as its decimal text is read back as that number. */
  lemma CoerceShownInt(n: nat, default: int)
    ensures CoerceInt(Some(StrValue(Decimal.Show(n))), default) == n
  {
    Decimal.ParseShow(n);
  }

  /** Text with surrounding whitespace, a sign or leading zeros is read as
      `int()` reads it: `" +7 "` and `"007"` both give 7. */
  lemma CoercePaddedText(p: string, sign: string, z: string, n: nat, q: string, default: int)
    requires Decimal.AllIntSpace(p) && Decimal.AllIntSpace(q)
    requires sign == "" || sign == "+" || sign == "-"
    requires forall i :: 0 <= i < |z| ==> z[i] == '0'
    ensures CoerceInt(Some(StrValue(p + sign + z + Decimal.Show(n) + q)), default) == if sign == "-" then -(n as int) else n as int
  {
    Decimal.ParseIntPadded(p, sign, z, n, q);
  }

  /** Digits after an information separator (U+001C..U+001F) are not a
      number to `int()`, so the default is kept. */
  lemma CoerceSeparatedText(d: string, default: int)
    requires Decimal.IsDigits(d)
    ensures CoerceInt(Some(StrValue("\U{1C}" + d)), default) == default
  {
    Decimal.SeparatorNotIntSpace(d);
  }

  /** `_build_config`: each setting or its default, then `__post_init__`. */
  function BuildConfig(st: Settings): (r: MagnetConfig)
    ensures IsNormal(r)
    ensures st.baseUrl.None? ==> r.baseUrl == DefaultBaseUrl
    ensures st.searchPath.None? ==> r.searchPath == DefaultSearchPath
    ensures st.maxResults.None? ==> r.maxResults == DefaultMaxResults
    ensures st.pageSize.None? ==> r.pageSize == DefaultPageSize
    ensures st.requestTimeout.None? ==> r.requestTimeout == DefaultRequestTimeout
    ensures st.baseUrl.Some? ==>
      && Text.StartsWith(st.baseUrl.value, r.baseUrl)
      && forall i :: |r.baseUrl| <= i < |st.baseUrl.value| ==> st.baseUrl.value[i] == '/'
    ensures st.searchPath.Some? ==>
      r.searchPath == if Text.StartsWith(st.searchPath.value, "/") then st.searchPath.value else "/" + st.searchPath.value
    ensures r.maxResults == CoerceInt(st.maxResults, DefaultMaxResults)
    ensures r.pageSize == CoerceInt(st.pageSize, DefaultPageSize)
    ensures r.requestTimeout == CoerceInt(st.requestTimeout, DefaultRequestTimeout)
  {
    assert !Text.EndsWith(DefaultBaseUrl, "/");
    assert Text.StartsWith(DefaultSearchPath, "/");
    Normalize(MagnetConfig(
      st.baseUrl.GetOr(DefaultBaseUrl),
      st.searchPath.GetOr(DefaultSearchPath),
      CoerceInt(st.maxResults, DefaultMaxResults),
      CoerceInt(st.pageSize, DefaultPageSize),
      CoerceInt(st.requestTimeout, DefaultRequestTimeout),
      map[]))
  }

  /** The settings a configuration would be stored as. */
  function Stored(c: MagnetConfig): Settings {
    Settings(Some(c.baseUrl), Some(c.searchPath), Some(IntValue(c.maxResults)),
      Some(IntValue(c.pageSize)), Some(IntValue(c.requestTimeout)))
  }

  /** Storing a normal configuration and building it again gives it back. */
  lemma BuildStored(c: MagnetConfig)
    requires IsNormal(c)
    ensures BuildConfig(Stored(c)) == c
  {
  }
}
