/**
 * Field extraction from magnet links (the magnet URI format of BitTorrent
 * BEP 9).  Both extractors are leftmost regular-expression matches with a
 * greedy capture group, written out as searches over `seq<char>`:
 *
 *   - the info hash is the capture of  btih:([a-zA-Z0-9]+)
 *   - the display name is the capture of  (?:\?|&)dn=([^&]+) , percent-decoded.
 *
 * Neither pattern is anchored and neither checks the length or alphabet of an
 * info hash beyond `[a-zA-Z0-9]`.
 */
module MagnetLinks {
  import opened Wrappers

  /** The character class [a-zA-Z0-9]. */
  predicate IsAlnum(c: char)
  {
    ('a' <= c <= 'z') || ('A' <= c <= 'Z') || ('0' <= c <= '9')
  }

  predicate AllAlnum(h: string)
  {
    forall k :: 0 <= k < |h| ==> IsAlnum(h[k])
  }

  // ---------------------------------------------------------------------------
  // Info hash: btih:([a-zA-Z0-9]+)
  // ---------------------------------------------------------------------------

  /** The info-hash pattern matches starting at position `i` of `s`. */
  predicate InfoHashAt(s: string, i: int)
  {
    0 <= i && i + 6 <= |s| && s[i..i + 5] == "btih:" && IsAlnum(s[i + 5])
  }

  /** `i` is the leftmost position where the info-hash pattern matches. */
  predicate LeftmostInfoHash(s: string, i: int)
  {
    InfoHashAt(s, i) && forall k :: 0 <= k < i ==> !InfoHashAt(s, k)
  }

  /** `h` is the greedy capture of `[a-zA-Z0-9]+` starting at position `j`. */
  predicate GreedyAlnumAt(s: string, j: int, h: string)
  {
    0 <= j && j + |h| <= |s| && |h| > 0 && s[j..j + |h|] == h && AllAlnum(h) &&
    (j + |h| == |s| || !IsAlnum(s[j + |h|]))
  }

  /** Length of the longest run of [a-zA-Z0-9] starting at position `j`. */
  function AlnumRun(s: string, j: nat): (n: nat)
    requires j <= |s|
    ensures j + n <= |s|
    ensures forall k :: j <= k < j + n ==> IsAlnum(s[k])
    ensures j + n == |s| || !IsAlnum(s[j + n])
    decreases |s| - j
  {
    if j == |s| || !IsAlnum(s[j]) then 0 else 1 + AlnumRun(s, j + 1)
  }

  /** The leftmost match of the info-hash pattern at or after position `i`. */
  function FindInfoHash(s: string, i: nat): (r: Option<nat>)
    requires i <= |s|
    ensures r.Some? ==>
      i <= r.value && InfoHashAt(s, r.value) &&
      forall k :: i <= k < r.value ==> !InfoHashAt(s, k)
    ensures r.None? ==> forall k :: i <= k ==> !InfoHashAt(s, k)
    decreases |s| - i
  {
    if |s| < i + 6 then None
    else if InfoHashAt(s, i) then Some(i)
    else FindInfoHash(s, i + 1)
  }

  /**
   * `getInfoHashFromMagnetLink`: `None` (null) exactly when the pattern occurs
   * nowhere; otherwise the greedy capture at the leftmost occurrence, which is
   * a non-empty run of [a-zA-Z0-9].
   */
  function GetInfoHash(s: string): (r: Option<string>)
    ensures r.None? <==> forall i :: !InfoHashAt(s, i)
    ensures r.Some? ==> |r.value| > 0 && AllAlnum(r.value)
    ensures r.Some? ==> exists i :: LeftmostInfoHash(s, i) && GreedyAlnumAt(s, i + 5, r.value)
  {
    match FindInfoHash(s, 0)
    case None => None
    case Some(i) =>
      var n := AlnumRun(s, i + 5);
      var h := s[i + 5 .. i + 5 + n];
      assert LeftmostInfoHash(s, i) && GreedyAlnumAt(s, i + 5, h);
      Some(h)
  }

  /** At most one position is the leftmost match. */
  lemma LeftmostInfoHashUnique(s: string, i: int, j: int)
    requires LeftmostInfoHash(s, i) && LeftmostInfoHash(s, j)
    ensures i == j
  {
  }

  /** A greedy `[a-zA-Z0-9]+` capture starting at a given position is unique. */
  lemma GreedyAlnumUnique(s: string, j: int, h1: string, h2: string)
    requires GreedyAlnumAt(s, j, h1) && GreedyAlnumAt(s, j, h2)
    ensures h1 == h2
  {
    forall k | j <= k < j + |h1|
      ensures IsAlnum(s[k])
    {
      assert s[k] == h1[k - j];
    }
    forall k | j <= k < j + |h2|
      ensures IsAlnum(s[k])
    {
      assert s[k] == h2[k - j];
    }
  }

  /**
   * Round trip: a link built as `p + "btih:" + h + rest`, with `h` a non-empty
   * run of [a-zA-Z0-9], `rest` not continuing that run, and no match starting
   * inside `p`, yields exactly `h`.
   */
  lemma InfoHashRoundTrip(p: string, h: string, rest: string)
    requires |h| > 0 && AllAlnum(h)
    requires |rest| == 0 || !IsAlnum(rest[0])
    requires forall k :: 0 <= k < |p| ==> !InfoHashAt(p + "btih:" + h + rest, k)
    ensures GetInfoHash(p + "btih:" + h + rest) == Some(h)
  {
    var s := p + "btih:" + h + rest;
    var j := |p| + 5;
    assert s[|p|..j] == "btih:";
    assert s[j] == h[0];
    assert LeftmostInfoHash(s, |p|);
    assert s[j..j + |h|] == h;
    if |rest| > 0 {
      assert s[j + |h|] == rest[0];
    }
    assert GreedyAlnumAt(s, j, h);
    var r := GetInfoHash(s);
    assert r.Some?;
    var i :| LeftmostInfoHash(s, i) && GreedyAlnumAt(s, i + 5, r.value);
    LeftmostInfoHashUnique(s, i, |p|);
    GreedyAlnumUnique(s, j, r.value, h);
  }

  /** The prefix `btih:` is matched case-sensitively. */
  lemma InfoHashCaseSensitive()
    ensures GetInfoHash("BTIH:ab") == None
  {
    var s := "BTIH:ab";
    forall i
      ensures !InfoHashAt(s, i)
    {
      if 0 <= i && i + 6 <= |s| {
        assert s[i..i + 5][0] == s[i];
        assert i == 0 || i == 1;
      }
    }
  }

  /** Neither the length nor the hex or base32 form of the hash is checked. */
  lemma InfoHashFormNotChecked()
    ensures GetInfoHash("btih:xyz") == Some("xyz")
    ensures GetInfoHash("magnet:?xt=urn:btih:Q&dn=a") == Some("Q")
  {
    InfoHashRoundTrip("", "xyz", "");
    assert "" + "btih:" + "xyz" + "" == "btih:xyz";
    var p := "magnet:?xt=urn:";
    var s := p + "btih:" + "Q" + "&dn=a";
    assert s == "magnet:?xt=urn:btih:Q&dn=a";
    assert 'b' !in p;
    forall k | 0 <= k < |p|
      ensures !InfoHashAt(s, k)
    {
      assert s[k..k + 5][0] == s[k] == p[k];
    }
    InfoHashRoundTrip(p, "Q", "&dn=a");
  }

  // ---------------------------------------------------------------------------
  // Display name: (?:\?|&)dn=([^&]+), then decodeURIComponent
  // ---------------------------------------------------------------------------

  /** The name pattern matches starting at position `i` (at the `?` or `&`). */
  predicate NameAt(s: string, i: int)
  {
    0 <= i && i + 5 <= |s| && (s[i] == '?' || s[i] == '&') &&
    s[i + 1..i + 4] == "dn=" && s[i + 4] != '&'
  }

  predicate LeftmostName(s: string, i: int)
  {
    NameAt(s, i) && forall k :: 0 <= k < i ==> !NameAt(s, k)
  }

  /** `v` is the greedy capture of `[^&]+` starting at position `j`. */
  predicate GreedyNoAmpAt(s: string, j: int, v: string)
  {
    0 <= j && j + |v| <= |s| && |v| > 0 && s[j..j + |v|] == v && '&' !in v &&
    (j + |v| == |s| || s[j + |v|] == '&')
  }

  /** Length of the longest run of characters other than `&` starting at `j`. */
  function NoAmpRun(s: string, j: nat): (n: nat)
    requires j <= |s|
    ensures j + n <= |s|
    ensures forall k :: j <= k < j + n ==> s[k] != '&'
    ensures j + n == |s| || s[j + n] == '&'
    decreases |s| - j
  {
    if j == |s| || s[j] == '&' then 0 else 1 + NoAmpRun(s, j + 1)
  }

  function FindName(s: string, i: nat): (r: Option<nat>)
    requires i <= |s|
    ensures r.Some? ==>
      i <= r.value && NameAt(s, r.value) &&
      forall k :: i <= k < r.value ==> !NameAt(s, k)
    ensures r.None? ==> forall k :: i <= k ==> !NameAt(s, k)
    decreases |s| - i
  {
    if |s| < i + 5 then None
    else if NameAt(s, i) then Some(i)
    else FindName(s, i + 1)
  }

  /**
   * The raw `dn` capture (before decoding): `None` exactly when no `?dn=` or
   * `&dn=` is followed by a character other than `&`; otherwise the
   * non-empty, `&`-free run from the leftmost match up to the next `&` or the
   * end of the link.
   */
  function NameCapture(s: string): (r: Option<string>)
    ensures r.None? <==> forall i :: !NameAt(s, i)
    ensures r.Some? ==> |r.value| > 0 && '&' !in r.value
    ensures r.Some? ==> exists i :: LeftmostName(s, i) && GreedyNoAmpAt(s, i + 4, r.value)
  {
    match FindName(s, 0)
    case None => None
    case Some(i) =>
      var n := NoAmpRun(s, i + 4);
      var v := s[i + 4 .. i + 4 + n];
      assert forall k :: 0 <= k < |v| ==> v[k] == s[i + 4 + k];
      assert LeftmostName(s, i) && GreedyNoAmpAt(s, i + 4, v);
      Some(v)
  }

  /** The error `decodeURIComponent` throws on a malformed escape. */
  datatype UriError = UriError

  /**
   * `decodeURIComponent` behaves as the identity on text containing no `%`
   * (section 2.1 of RFC 3986: only `%` introduces an escape).
   */
  ghost predicate PlainTextUnchanged(decode: string -> Option<string>)
  {
    forall t :: '%' !in t ==> decode(t) == Some(t)
  }

  /**
   * `getNameFromMagnetLink`: `null` when there is no `dn` match, otherwise the
   * decoding of the raw capture.  `decode` stands for `decodeURIComponent`;
   * its `None` is the URIError it throws, which propagates to the caller.
   */
  function GetName(s: string, decode: string -> Option<string>): (r: Result<Option<string>, UriError>)
    ensures NameCapture(s).None? ==> r == Success(None)
    ensures NameCapture(s).Some? && decode(NameCapture(s).value).Some? ==>
      r == Success(Some(decode(NameCapture(s).value).value))
    ensures NameCapture(s).Some? && decode(NameCapture(s).value).None? ==> r == Failure(UriError)
  {
    match NameCapture(s)
    case None => Success(None)
    case Some(raw) =>
      match decode(raw)
      case None => Failure(UriError)
      case Some(name) => Success(Some(name))
  }

  lemma LeftmostNameUnique(s: string, i: int, j: int)
    requires LeftmostName(s, i) && LeftmostName(s, j)
    ensures i == j
  {
  }

  lemma GreedyNoAmpUnique(s: string, j: int, v1: string, v2: string)
    requires GreedyNoAmpAt(s, j, v1) && GreedyNoAmpAt(s, j, v2)
    ensures v1 == v2
  {
    forall k | j <= k < j + |v1|
      ensures s[k] != '&'
    {
      assert s[k] == v1[k - j];
    }
    forall k | j <= k < j + |v2|
      ensures s[k] != '&'
    {
      assert s[k] == v2[k - j];
    }
  }

  /**
   * Round trip: for `p + sep + "dn=" + v + rest` with `sep` either `?` or `&`,
   * `v` non-empty and free of `&`, `rest` empty or starting with `&`, and no
   * match starting inside `p`, the raw capture is `v`; if `v` holds no `%`
   * the name returned is `v` itself.
   */
  lemma NameRoundTrip(p: string, sep: char, v: string, rest: string, decode: string -> Option<string>)
    requires sep == '?' || sep == '&'
    requires |v| > 0 && '&' !in v
    requires |rest| == 0 || rest[0] == '&'
    requires forall k :: 0 <= k < |p| ==> !NameAt(p + [sep] + "dn=" + v + rest, k)
    ensures NameCapture(p + [sep] + "dn=" + v + rest) == Some(v)
    ensures PlainTextUnchanged(decode) && '%' !in v ==>
      GetName(p + [sep] + "dn=" + v + rest, decode) == Success(Some(v))
  {
    var s := p + [sep] + "dn=" + v + rest;
    var j := |p| + 4;
    assert s[|p|] == sep;
    assert s[|p| + 1..j] == "dn=";
    assert s[j] == v[0];
    assert LeftmostName(s, |p|);
    assert s[j..j + |v|] == v;
    if |rest| > 0 {
      assert s[j + |v|] == rest[0];
    }
    assert GreedyNoAmpAt(s, j, v);
    var r := NameCapture(s);
    assert r.Some?;
    var i :| LeftmostName(s, i) && GreedyNoAmpAt(s, i + 4, r.value);
    LeftmostNameUnique(s, i, |p|);
    GreedyNoAmpUnique(s, j, r.value, v);
  }

  /**
   * A `dn=` that is not preceded by `?` or `&` is never matched: a link with
   * neither character has no name, whatever `dn=` parameters it contains.
   */
  lemma NameNeedsDelimiter(s: string, decode: string -> Option<string>)
    requires forall k :: 0 <= k < |s| ==> s[k] != '?' && s[k] != '&'
    ensures NameCapture(s) == None
    ensures GetName(s, decode) == Success(None)
  {
  }

  /** A `dn=` at the very start of the link is not a match. */
  lemma NameAtStartIgnored(decode: string -> Option<string>)
    ensures GetName("dn=abc", decode) == Success(None)
  {
    NameNeedsDelimiter("dn=abc", decode);
  }

  /** A parameter that merely ends in `dn=`, such as `xdn=`, is not a match. */
  lemma NameInsideOtherKeyIgnored(decode: string -> Option<string>)
    ensures GetName("magnet:?xdn=abc", decode) == Success(None)
  {
    var s := "magnet:?xdn=abc";
    assert '?' !in s[..7] && '?' !in s[8..] && '&' !in s;
    forall i
      ensures !NameAt(s, i)
    {
      if 0 <= i < 7 {
        assert s[i] == s[..7][i];
      } else if 7 < i < |s| {
        assert s[i] == s[8..][i - 8];
      } else if i == 7 {
        assert s[i + 1..i + 4][0] == s[8] == 'x';
      }
    }
  }

  /** The `dn` parameter of a typical link, stopping at the next `&`. */
  lemma NameOfTypicalLink()
    ensures NameCapture("magnet:?xt=urn:btih:Q&dn=Al+Fatiha&tr=x") == Some("Al+Fatiha")
  {
    var p := "magnet:?xt=urn:btih:Q";
    var t := p + ['&'] + "dn=" + "Al+Fatiha" + "&tr=x";
    assert t == "magnet:?xt=urn:btih:Q&dn=Al+Fatiha&tr=x";
    assert '?' !in p[..7] && '?' !in p[8..] && '&' !in p;
    forall k | 0 <= k < |p|
      ensures !NameAt(t, k)
    {
      if k < 7 {
        assert t[k] == p[k] == p[..7][k];
      } else if 7 < k {
        assert t[k] == p[k] == p[8..][k - 8];
      } else {
        assert t[k + 1..k + 4][0] == t[8] == 'x';
      }
    }
    NameRoundTrip(p, '&', "Al+Fatiha", "&tr=x", t => None);
  }
}
