/** ImageScheme: the schemes an image URI may have, told apart by the prefix
    `scheme://` of the URI in lower case. */
module Schemes {
  import opened Lang

  /** The enum constants, in declaration order. */
  datatype Scheme = HTTP | HTTPS | FILE | CONTENT | ASSETS | DRAWABLE | UNKNOWN {
    /** The `scheme` field. */
    function Name(): string {
      match this
      case HTTP => "http"
      case HTTPS => "https"
      case FILE => "file"
      case CONTENT => "content"
      case ASSETS => "assets"
      case DRAWABLE => "drawable"
      case UNKNOWN => ""
    }

    /** `ordinal()`: the position in `values()`. */
    function Ordinal(): (k: nat)
      ensures k < |VALUES| && VALUES[k] == this
    {
      match this
      case HTTP => 0
      case HTTPS => 1
      case FILE => 2
      case CONTENT => 3
      case ASSETS => 4
      case DRAWABLE => 5
      case UNKNOWN => 6
    }

    /** The `uriPrefix` field, set by the constructor. */
    function UriPrefix(): string {
      Name() + "://"
    }
  }

  /** `values()`. */
  const VALUES: seq<Scheme> := [HTTP, HTTPS, FILE, CONTENT, ASSETS, DRAWABLE, UNKNOWN]

  /** `Character.toLowerCase` on the ASCII letters; every other character is kept. */
  function ToLowerChar(c: char): char {
    if 'A' <= c <= 'Z' then (c as int + 32) as char else c
  }

  predicate IsLower(s: string) {
    forall i :: 0 <= i < |s| ==> ToLowerChar(s[i]) == s[i]
  }

  /** `toLowerCase(Locale.US)`: one character for one. */
  function ToLower(s: string): (r: string)
    ensures |r| == |s| && IsLower(r)
    ensures forall i :: 0 <= i < |s| ==> r[i] == ToLowerChar(s[i])
  {
    seq(|s|, i requires 0 <= i < |s| => ToLowerChar(s[i]))
  }

  /** Lower case lowers the parts of a concatenation separately. */
  lemma ToLowerConcat(a: string, b: string)
    ensures ToLower(a + b) == ToLower(a) + ToLower(b)
  {
    assert forall i :: 0 <= i < |a| + |b| ==> (a + b)[i] == if i < |a| then a[i] else b[i - |a|];
  }

  /** Lowering a string already in lower case gives it back. */
  lemma ToLowerOfLower(s: string)
    requires IsLower(s)
    ensures ToLower(s) == s
  {
  }

  /** Every prefix is in lower case. */
  lemma PrefixIsLower(s: Scheme)
    ensures IsLower(s.UriPrefix())
  {
  }

  /** `belongsTo(uri)`: the URI in lower case starts with the prefix. */
  predicate BelongsTo(s: Scheme, uri: string) {
    s.UriPrefix() <= ToLower(uri)
  }

  /** The position of the first scheme of `schemes` the URI belongs to; `|schemes|` when
      there is none. */
  function FirstBelonging(schemes: seq<Scheme>, uri: string): (k: nat)
    ensures k <= |schemes|
    ensures k < |schemes| ==> BelongsTo(schemes[k], uri)
    ensures forall j :: 0 <= j < k ==> !BelongsTo(schemes[j], uri)
  {
    if schemes == [] then 0
    else if BelongsTo(schemes[0], uri) then 0
    else
      var k := FirstBelonging(schemes[1..], uri);
      assert forall j :: 1 <= j < |schemes| ==> schemes[j] == schemes[1..][j - 1];
      k + 1
  }

  /** What `ofUri(uri)` returns: UNKNOWN for null; otherwise the first scheme in
      declaration order the URI belongs to, UNKNOWN when there is none. */
  function SchemeOf(uri: Option<string>): Scheme {
    if uri.None? then UNKNOWN
    else
      var k := FirstBelonging(VALUES, uri.value);
      if k < |VALUES| then VALUES[k] else UNKNOWN
  }

  /** `ofUri(uri)`: tries the schemes in declaration order and returns the first that
      matches. */
  method OfUri(uri: Option<string>) returns (s: Scheme)
    ensures s == SchemeOf(uri)
    ensures uri.None? ==> s == UNKNOWN
    ensures uri.Some? && s != UNKNOWN ==> BelongsTo(s, uri.value)
  {
    if uri.Some? {
      var i := 0;
      while i < |VALUES|
        invariant 0 <= i <= |VALUES|
        invariant forall j :: 0 <= j < i ==> !BelongsTo(VALUES[j], uri.value)
      {
        if BelongsTo(VALUES[i], uri.value) {
          return VALUES[i];
        }
        i := i + 1;
      }
    }
    return UNKNOWN;
  }

  /** `isHttpScheme(uri)`: whether `ofUri(uri)` is HTTP or HTTPS. */
  method IsHttpScheme(uri: Option<string>) returns (b: bool)
    ensures b <==> SchemeOf(uri) == HTTP || SchemeOf(uri) == HTTPS
    ensures uri.None? ==> !b
  {
    var scheme := OfUri(uri);
    return scheme == HTTP || scheme == HTTPS;
  }

  /** `wrap(path)`: the prefix, then the path. */
  function Wrap(s: Scheme, path: string): (uri: string)
    ensures BelongsTo(s, uri)
    ensures |uri| == |s.UriPrefix()| + |path| && uri[|s.UriPrefix()|..] == path
  {
    var uri := s.UriPrefix() + path;
    ToLowerConcat(s.UriPrefix(), path);
    PrefixIsLower(s);
    ToLowerOfLower(s.UriPrefix());
    uri
  }

  /** `crop(uri)` throws an IllegalArgumentException with this message, or a
      NullPointerException for a null URI. */
  datatype CropError = IllegalArgument(message: string) | NullPointer

  /** `crop(uri)`: the URI without its first `prefix.length` characters, provided it
      belongs to the scheme. */
  function Crop(s: Scheme, uri: Option<string>): (r: Result<string, CropError>)
    ensures uri.None? ==> r == Err(NullPointer)
    ensures uri.Some? ==> (r.Ok? <==> BelongsTo(s, uri.value))
    ensures uri.Some? && !BelongsTo(s, uri.value) ==>
      r == Err(IllegalArgument("URI [" + uri.value + "] doesn't have expected scheme [" + s.Name() + "]"))
    ensures r.Ok? ==>
      uri.value == uri.value[..|s.UriPrefix()|] + r.value && ToLower(uri.value[..|s.UriPrefix()|]) == s.UriPrefix()
  {
    if uri.None? then Err(NullPointer)
    else if !BelongsTo(s, uri.value) then
      Err(IllegalArgument("URI [" + uri.value + "] doesn't have expected scheme [" + s.Name() + "]"))
    else Ok(uri.value[|s.UriPrefix()|..])
  }

  // ---------------------------------------------------------------------
  // Properties

  /** Cropping a wrapped path gives the path back. */
  lemma CropWrap(s: Scheme, path: string)
    ensures Crop(s, Some(Wrap(s, path))) == Ok(path)
  {
  }

  /** Wrapping what a crop left gives the URI back, up to the case of its prefix. */
  lemma WrapCrop(s: Scheme, uri: string)
    requires Crop(s, Some(uri)).Ok?
    ensures ToLower(Wrap(s, Crop(s, Some(uri)).value)) == ToLower(uri)
    ensures uri[..|s.UriPrefix()|] == s.UriPrefix() ==> Wrap(s, Crop(s, Some(uri)).value) == uri
  {
    var k := |s.UriPrefix()|;
    var rest := uri[k..];
    assert uri == uri[..k] + rest;
    ToLowerConcat(uri[..k], rest);
    ToLowerConcat(s.UriPrefix(), rest);
    PrefixIsLower(s);
    ToLowerOfLower(s.UriPrefix());
    assert ToLower(uri)[..k] == ToLower(uri[..k]);
  }

  /** No prefix starts another scheme's wrapped URI. */
  lemma PrefixFree(s: Scheme, t: Scheme, path: string)
    requires s != t
    ensures !BelongsTo(t, Wrap(s, path))
  {
    var uri := Wrap(s, path);
    ToLowerConcat(s.UriPrefix(), path);
    PrefixIsLower(s);
    ToLowerOfLower(s.UriPrefix());
    assert ToLower(uri) == s.UriPrefix() + ToLower(path);
    if t.UriPrefix() <= ToLower(uri) {
      PrefixesDiffer(s, t, ToLower(path));
    }
  }

  /** Two different prefixes part before either ends: they differ at a position both
      have, and the longer one is not followed by "://" where the shorter one ends. */
  lemma PrefixesDiffer(s: Scheme, t: Scheme, tail: string)
    requires s != t
    ensures !(t.UriPrefix() <= s.UriPrefix() + tail)
  {
    var p, q := s.UriPrefix(), t.UriPrefix();
    var i := FirstDifference(s, t);
    assert i < |p| && i < |q| && p[i] != q[i];
    assert (p + tail)[i] == p[i];
  }

  /** A position where two different prefixes have different characters. */
  function FirstDifference(s: Scheme, t: Scheme): (i: nat)
    requires s != t
    ensures i < |s.UriPrefix()| && i < |t.UriPrefix()| && s.UriPrefix()[i] != t.UriPrefix()[i]
  {
    if s == UNKNOWN || t == UNKNOWN then 0
    else if (s == HTTP && t == HTTPS) || (s == HTTPS && t == HTTP) then 4
    else 0
  }

  /** `ofUri` tells every scheme's wrapped URIs apart: `ofUri(s.wrap(p)) == s`. */
  lemma OfUriWrap(s: Scheme, path: string)
    ensures SchemeOf(Some(Wrap(s, path))) == s
  {
    var uri := Wrap(s, path);
    var k := s.Ordinal();
    forall j | 0 <= j < |VALUES| && VALUES[j] != s
      ensures !BelongsTo(VALUES[j], uri)
    {
      PrefixFree(s, VALUES[j], path);
    }
    assert FirstBelonging(VALUES, uri) <= k;
  }

  /** `ofUri` ignores the case of the URI. */
  lemma OfUriIgnoresCase(uri: string)
    ensures SchemeOf(Some(uri)) == SchemeOf(Some(ToLower(uri)))
  {
    ToLowerOfLower(ToLower(uri));
    assert forall s :: BelongsTo(s, uri) <==> BelongsTo(s, ToLower(uri));
    forall i | 0 <= i < |VALUES|
      ensures BelongsTo(VALUES[i], uri) <==> BelongsTo(VALUES[i], ToLower(uri))
    {
    }
    FirstBelongingSame(VALUES, uri, ToLower(uri));
  }

  /** Two URIs that belong to the same schemes of `schemes` meet the same first one. */
  lemma {:induction false} FirstBelongingSame(schemes: seq<Scheme>, a: string, b: string)
    requires forall i :: 0 <= i < |schemes| ==> (BelongsTo(schemes[i], a) <==> BelongsTo(schemes[i], b))
    ensures FirstBelonging(schemes, a) == FirstBelonging(schemes, b)
  {
    if schemes != [] && !BelongsTo(schemes[0], a) {
      FirstBelongingSame(schemes[1..], a, b);
    }
  }

  /** "HTTP://x" is an HTTP URI whose path is "x", and not the HTTPS one. */
  lemma UpperCaseHttp()
    ensures SchemeOf(Some("HTTP://x")) == HTTP
    ensures Crop(HTTP, Some("HTTP://x")) == Ok("x")
    ensures Crop(HTTPS, Some("HTTP://x")).Err?
  {
    assert ToLower("HTTP://x") == "http://x";
    assert BelongsTo(HTTP, "HTTP://x");
    assert HTTPS.UriPrefix()[4] != ToLower("HTTP://x")[4];
  }

  /** A URI of no known scheme is UNKNOWN, and a null one too. */
  lemma UnknownScheme(uri: Option<string>)
    requires uri.Some? ==> forall i :: 0 <= i < 6 ==> !BelongsTo(VALUES[i], uri.value)
    ensures SchemeOf(uri) == UNKNOWN
  {
  }
}
