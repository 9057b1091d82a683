/** `MagnetUtils` (main.py:39-60): decrypting the site's `window.atob`
    payloads, and resolving the links found on its pages against the
    configured base URL. */
module MagnetUtils {
  import opened Wrappers
  import Text
  import Base64
  import Utf8
  import Percent

  /** `decrypt_base64`: pad with `=` to a multiple of four, Base64-decode,
      decode the bytes as UTF-8 dropping malformed sequences, then
      percent-decode. Any failure of the Base64 step yields the empty text. */
  function DecryptBase64(s: string): (r: string)
    ensures Base64.Decode(Base64.Pad(s)).Failure? ==> r == ""
    ensures Base64.Decode(Base64.Pad(s)).Success? ==>
      r == Percent.Unquote(Utf8.Decode(Base64.Decode(Base64.Pad(s)).value, Utf8.Ignore))
    ensures (exists i :: 0 <= i < |s| && (s[i] as int) >= 128) ==> r == ""
    ensures Base64.AlphabetOnly(s) && |s| % 4 == 1 ==> r == ""
  {
    Base64.DecodePadRejects(s);
    match Base64.Decode(Base64.Pad(s))
    case Failure(_) => ""
    case Success(b) => Percent.Unquote(Utf8.Decode(b, Utf8.Ignore))
  }

  /** A payload made by Base64-encoding the UTF-8 bytes of a text decrypts
      to the percent-decoding of that text. */
  lemma DecryptEncoded(t: string)
    ensures DecryptBase64(Base64.Encode(Utf8.Encode(t))) == Percent.Unquote(t)
  {
    Base64.DecodePadEncode(Utf8.Encode(t));
    Utf8.DecodeEncode(t, Utf8.Ignore);
  }

  /** Round trip: the way the site hides a page, `btoa(encodeURIComponent(page))`
      with the `=` padding dropped or kept, is undone for every page. */
  lemma DecryptHidden(page: string)
    ensures DecryptBase64(Base64.Encode(Utf8.Encode(Percent.Quote(page)))) == page
    ensures DecryptBase64(Base64.Pad(Base64.Encode(Utf8.Encode(Percent.Quote(page))))) == page
  {
    DecryptEncoded(Percent.Quote(page));
    Percent.UnquoteQuote(page);
    DecryptPadded(Base64.Encode(Utf8.Encode(Percent.Quote(page))));
  }

  /** A payload and its `=`-padded form decrypt alike. */
  lemma DecryptPadded(s: string)
    ensures DecryptBase64(Base64.Pad(s)) == DecryptBase64(s)
  {
    Base64.PadIdempotent(s);
  }

  /** A payload of alphabet characters decrypts to the empty text exactly
      when its length is one more than a multiple of four; any other length
      is decoded. */
  lemma DecryptDangling(s: string)
    requires Base64.AlphabetOnly(s)
    ensures |s| % 4 == 1 ==> DecryptBase64(s) == ""
    ensures Base64.Decode(Base64.Pad(s)).Success? <==> |s| % 4 != 1
  {
    Base64.DecodePadFailsIff(s);
  }

  /** What is left of a relative link once a leading `./` or `/` is dropped. */
  function RelativePath(ref: string): (p: string)
    ensures Text.StartsWith(ref, "./") ==> ref == "./" + p
    ensures !Text.StartsWith(ref, "./") && Text.StartsWith(ref, "/") ==> ref == "/" + p
    ensures !Text.StartsWith(ref, "./") && !Text.StartsWith(ref, "/") ==> p == ref
  {
    if Text.StartsWith(ref, "./") then ref[2..]
    else if Text.StartsWith(ref, "/") then ref[1..]
    else ref
  }

  /** `get_full_url`: a link starting with `http` is taken as it is; any other
      is joined to the base URL with exactly the one `/` it brings or needs. */
  function GetFullUrl(base: string, ref: string): (r: string)
    ensures Text.StartsWith(ref, "http") ==> r == ref
    ensures !Text.StartsWith(ref, "http") ==> r == base + "/" + RelativePath(ref)
  {
    if Text.StartsWith(ref, "http") then ref
    else if Text.StartsWith(ref, "./") then base + "/" + ref[2..]
    else if Text.StartsWith(ref, "/") then base + ref
    else base + "/" + ref
  }

  /** A text whose first character differs from that of `t` does not start
      with `t`. */
  lemma FirstCharDiffers(s: string, t: string)
    requires |s| > 0 && |t| > 0 && s[0] != t[0]
    ensures !Text.StartsWith(s, t)
  {
    if |t| <= |s| {
      assert s[..|t|][0] == s[0];
    }
  }

  /** The three spellings of a site-relative path, `./p`, `/p` and `p`,
      resolve to the same URL. */
  lemma SpellingsAgree(base: string, p: string)
    requires !Text.StartsWith(p, "http") && !Text.StartsWith(p, "./") && !Text.StartsWith(p, "/")
    ensures GetFullUrl(base, "./" + p) == GetFullUrl(base, "/" + p) == GetFullUrl(base, p) == base + "/" + p
  {
    FirstCharDiffers("./" + p, "http");
    FirstCharDiffers("/" + p, "http");
    FirstCharDiffers("/" + p, "./");
    assert ("./" + p)[2..] == p;
    assert ("/" + p)[1..] == p;
  }

  /** Over an `http` base, a resolved link is absolute, so resolving it
      again changes nothing. */
  lemma ResolveIdempotent(base: string, ref: string)
    requires Text.StartsWith(base, "http")
    ensures Text.StartsWith(GetFullUrl(base, ref), "http")
    ensures GetFullUrl(base, GetFullUrl(base, ref)) == GetFullUrl(base, ref)
  {
    var r := GetFullUrl(base, ref);
    if !Text.StartsWith(ref, "http") {
      assert r[..4] == base[..4];
    }
  }
}
