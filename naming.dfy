/**
 * Names of cache files: `<token>.<extension>.cache`, where the token is twelve
 * random letters and digits and the extension is read off the attachment URL.
 */
module Naming {
  import opened Wrappers
  import opened Strings

  const TokenLength: nat := 12

  /** The `n` consecutive characters starting at `first`. */
  function CharRun(first: char, n: nat): string
    requires first as int + n <= 0xD800
  {
    seq(n, i requires 0 <= i < n => (first as int + i) as char)
  }

  /** Python's `string.ascii_letters + string.digits`: `a`..`z`, `A`..`Z`, `0`..`9`. */
  const TokenAlphabet: string := CharRun('a', 26) + CharRun('A', 26) + CharRun('0', 10)

  const CacheSuffix: string := ".cache"

  /** An ASCII letter or digit. */
  predicate IsAlphanumeric(c: char) {
    'a' <= c <= 'z' || 'A' <= c <= 'Z' || '0' <= c <= '9'
  }

  /**
   * A possible outcome of `random.choices(TokenAlphabet, k=12)` joined into
   * a string: exactly twelve ASCII letters and digits.
   */
  predicate IsToken(t: string): (r: bool)
    ensures r <==> |t| == TokenLength && forall i :: 0 <= i < |t| ==> IsAlphanumeric(t[i])
  {
    TokenAlphabetIsAlphanumeric();
    |t| == TokenLength && forall i :: 0 <= i < |t| ==> t[i] in TokenAlphabet
  }

  /** The token alphabet is exactly the ASCII letters and digits. */
  lemma TokenAlphabetIsAlphanumeric()
    ensures forall c :: c in TokenAlphabet <==> IsAlphanumeric(c)
  {
    forall c
      ensures c in TokenAlphabet <==> IsAlphanumeric(c)
    {
      InRun(c, 'a', 26);
      InRun(c, 'A', 26);
      InRun(c, '0', 10);
    }
  }

  lemma InRun(c: char, first: char, n: nat)
    requires first as int + n <= 0xD800
    ensures c in CharRun(first, n) <==> first <= c && (c as int) < first as int + n
  {
    if first <= c && (c as int) < first as int + n {
      assert CharRun(first, n)[c as int - first as int] == c;
    }
  }

  /** `url.split('?')[0]`: the URL without its query string. */
  function BaseUrl(url: string): (b: string)
    ensures b <= url && '?' !in b
  {
    FirstPiece(url, '?');
    Split(url, "?")[0]
  }

  /** `base_url.split('.')[-1]`: the text after the last dot of the base URL. */
  function Extension(url: string): (e: string)
    ensures |e| <= |BaseUrl(url)| && '.' !in e
  {
    LastPiece(BaseUrl(url), '.');
    var parts := Split(BaseUrl(url), ".");
    parts[|parts| - 1]
  }

  /** `generate_random_filename(extension)` once the random token is drawn. */
  function CacheFilename(token: string, extension: string): (f: string)
    ensures |f| == |token| + 1 + |extension| + |CacheSuffix|
    ensures f[..|token|] == token && f[|token|] == '.' && f[|f| - |CacheSuffix|..] == CacheSuffix
    ensures f[|token| + 1..|f| - |CacheSuffix|] == extension
  {
    token + "." + extension + CacheSuffix
  }

  /** Reads a cache filename back into its token and its extension. */
  function ParseFilename(f: string): Option<(string, string)> {
    if |f| >= TokenLength + 1 + |CacheSuffix|
       && f[TokenLength] == '.'
       && f[|f| - |CacheSuffix|..] == CacheSuffix
       && IsToken(f[..TokenLength])
    then Some((f[..TokenLength], f[TokenLength + 1..|f| - |CacheSuffix|]))
    else None
  }

  /** A name `generate_random_filename` can produce. */
  predicate IsCacheFilename(f: string) {
    ParseFilename(f).Some?
  }

  /** The base URL is the prefix of the URL before its first `?` (all of it when there is none). */
  lemma BaseUrlShape(url: string)
    ensures var b := BaseUrl(url);
      && b <= url
      && '?' !in b
      && (b == url || url[|b|] == '?')
  {
    FirstPiece(url, '?');
  }

  /**
   * The extension is the suffix of the base URL after its last `.`, or the
   * whole base URL when it has no `.`; it never contains a `.` itself.
   */
  lemma ExtensionShape(url: string)
    ensures var b, e := BaseUrl(url), Extension(url);
      && |e| <= |b|
      && e == b[|b| - |e|..]
      && '.' !in e
      && (e == b || b[|b| - |e| - 1] == '.')
  {
    LastPiece(BaseUrl(url), '.');
  }

  /** The name starts with the token and a dot and ends with the extension and `.cache`. */
  lemma FilenameShape(token: string, url: string)
    requires IsToken(token)
    ensures var f, e := CacheFilename(token, Extension(url)), Extension(url);
      && |f| == TokenLength + 1 + |e| + |CacheSuffix|
      && f[..TokenLength] == token
      && f[TokenLength] == '.'
      && f[TokenLength + 1..|f| - |CacheSuffix|] == e
      && f[|f| - |CacheSuffix|..] == CacheSuffix
      && '.' !in e
  {
    ExtensionShape(url);
  }

  /** Parsing a generated name gives back its token and extension. */
  lemma ParseCacheFilename(token: string, extension: string)
    requires IsToken(token)
    ensures ParseFilename(CacheFilename(token, extension)) == Some((token, extension))
  {
    var f := CacheFilename(token, extension);
    assert f[..TokenLength] == token;
    assert f[TokenLength + 1..|f| - |CacheSuffix|] == extension;
    assert f[|f| - |CacheSuffix|..] == CacheSuffix;
  }

  /** Every name that parses is the generated name for its parts. */
  lemma CacheFilenameOfParse(f: string)
    requires IsCacheFilename(f)
    ensures var (token, extension) := ParseFilename(f).value;
      IsToken(token) && CacheFilename(token, extension) == f
  {
    var (token, extension) := ParseFilename(f).value;
    assert f == f[..TokenLength] + [f[TokenLength]] + f[TokenLength + 1..|f| - |CacheSuffix|] + f[|f| - |CacheSuffix|..];
  }

  /** A generated name is a cache filename, at least 19 characters long. */
  lemma GeneratedNameIsCacheFilename(token: string, extension: string)
    requires IsToken(token)
    ensures IsCacheFilename(CacheFilename(token, extension))
    ensures |CacheFilename(token, extension)| >= TokenLength + 1 + |CacheSuffix|
  {
    ParseCacheFilename(token, extension);
  }

  /** For `a.b/c?d` the base URL is `a.b/c`. */
  lemma BaseUrlExample()
    ensures BaseUrl("a.b/c?d") == "a.b/c"
  {
    var url := "a.b/c?d";
    BaseUrlShape(url);
    var b := BaseUrl(url);
    assert |b| == 5;
  }

  /**
   * When the last path segment of the URL has no dot, the "extension" reaches
   * back to the last dot of the host name and so contains `/`: for
   * `a.b/c?d` it is `b/c`.
   */
  lemma ExtensionMayContainSlash()
    ensures Extension("a.b/c?d") == "b/c"
  {
    var url := "a.b/c?d";
    BaseUrlExample();
    ExtensionShape(url);
    var b, e := BaseUrl(url), Extension(url);
    assert |e| == 3;
  }
}
