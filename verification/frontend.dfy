/** String helpers of the web front end: API URL building, the text key
    used for searching, and the CSS class of a sweetener tag. */
module Frontend {
  import opened Results
  import opened Text

  // ---------------------------------------------------------------------
  // buildApiUrl

  predicate Absolute(path: string)
  {
    StartsWith(path, "http://") || StartsWith(path, "https://")
  }

  /** The number of slashes `s` starts with. */
  function LeadingSlashes(s: string): (n: nat)
    ensures n <= |s|
    ensures forall i :: 0 <= i < n ==> s[i] == '/'
    ensures n < |s| ==> s[n] != '/'
  {
    if s != [] && s[0] == '/' then
      var m := LeadingSlashes(s[1..]);
      assert forall i :: 1 <= i <= m ==> s[i] == s[1..][i - 1];
      1 + m
    else 0
  }

  /** The path with its leading run of slashes removed. */
  function DropLeadingSlashes(s: string): (r: string)
    ensures |r| <= |s|
    ensures forall i :: 0 <= i < |r| ==> r[i] == s[|s| - |r| + i]
    ensures forall i :: 0 <= i < |s| - |r| ==> s[i] == '/'
    ensures r == [] || r[0] != '/'
  {
    s[LeadingSlashes(s)..]
  }

  /** `buildApiUrl`: an absolute URL as it is; otherwise the path without
      its leading slashes, relative to the page (the API base is empty). */
  function BuildApiUrl(path: string): (r: string)
    ensures Absolute(path) ==> r == path
    ensures !Absolute(path) ==> r == [] || r[0] != '/'
    ensures !Absolute(path) ==> |r| <= |path|
                                && (forall i :: 0 <= i < |path| - |r| ==> path[i] == '/')
                                && (forall i :: 0 <= i < |r| ==> r[i] == path[|path| - |r| + i])
  {
    if Absolute(path) then path else DropLeadingSlashes(path)
  }

  /** A relative path is the slashes removed followed by the result. */
  lemma BuildApiUrlRelative(path: string)
    requires !Absolute(path)
    ensures path == Slashes(|path| - |BuildApiUrl(path)|) + BuildApiUrl(path)
  {
    var r := BuildApiUrl(path);
    var k := |path| - |r|;
    assert path == path[..k] + path[k..];
    assert path[..k] == Slashes(k);
    assert path[k..] == r;
  }

  function Slashes(n: nat): (s: string)
    ensures |s| == n && forall i :: 0 <= i < n ==> s[i] == '/'
  {
    seq(n, i => '/')
  }

  /** Building a URL from a built URL changes nothing. */
  lemma BuildApiUrlIdempotent(path: string)
    ensures BuildApiUrl(BuildApiUrl(path)) == BuildApiUrl(path)
  {
    var r := BuildApiUrl(path);
    if !Absolute(path) && !Absolute(r) {
      assert r == [] || r[0] != '/';
    }
  }

  // ---------------------------------------------------------------------
  // normalizeText

  /** JavaScript's `\s`. */
  predicate JsSpace(c: char)
  {
    || c == '\t' || c == '\n' || c == '\U{000B}' || c == '\U{000C}' || c == '\r' || c == ' '
    || c == '\U{00A0}' || c == '\U{1680}' || ('\U{2000}' <= c <= '\U{200A}')
    || c == '\U{2028}' || c == '\U{2029}' || c == '\U{202F}' || c == '\U{205F}'
    || c == '\U{3000}' || c == '\U{FEFF}'
  }

  /** A character the search key keeps: an ASCII digit, a lower-case ASCII
      letter or a precomposed Hangul syllable. */
  predicate Kept(c: char)
  {
    ('0' <= c <= '9') || ('a' <= c <= 'z') || ('가' <= c <= '힣')
  }

  /** The text with every JavaScript whitespace character removed. */
  function RemoveJsSpaces(s: string): (r: string)
    ensures forall c :: c in r <==> c in s && !JsSpace(c)
    ensures (forall c :: c in s ==> !JsSpace(c)) ==> r == s
  {
    if s == [] then []
    else
      var rest := RemoveJsSpaces(s[1..]);
      assert forall c :: c in s <==> c == s[0] || c in s[1..] by {
        assert s == [s[0]] + s[1..];
      }
      if JsSpace(s[0]) then rest else [s[0]] + rest
  }

  /** The text with every character the search key does not keep removed. */
  function KeepOnly(s: string): (r: string)
    ensures forall c :: c in r <==> c in s && Kept(c)
    ensures (forall c :: c in s ==> Kept(c)) ==> r == s
  {
    if s == [] then []
    else
      var rest := KeepOnly(s[1..]);
      assert forall c :: c in s <==> c == s[0] || c in s[1..] by {
        assert s == [s[0]] + s[1..];
      }
      if Kept(s[0]) then [s[0]] + rest else rest
  }

  /** `normalizeText`; `None` is a missing value (`null` or `undefined`). */
  function NormalizeText(str: Option<string>): (r: string)
    ensures str.None? || str == Some("") ==> r == ""
    ensures forall c :: c in r ==> Kept(c)
  {
    if str.None? || str.value == "" then ""
    else KeepOnly(RemoveJsSpaces(Lower(str.value)))
  }

  /** Removing whitespace first makes no difference: the result is the
      lower-cased text with every character outside `[0-9a-z가-힣]` dropped. */
  lemma {:induction false} NormalizeTextIsFilter(s: string)
    ensures NormalizeText(Some(s)) == KeepOnly(Lower(s))
  {
    if s != "" {
      KeepOnlyIgnoresSpaces(Lower(s));
    }
  }

  lemma {:induction false} KeepOnlyIgnoresSpaces(s: string)
    ensures KeepOnly(RemoveJsSpaces(s)) == KeepOnly(s)
  {
    if s != [] {
      KeepOnlyIgnoresSpaces(s[1..]);
      if !JsSpace(s[0]) {
        var rest := RemoveJsSpaces(s[1..]);
        assert ([s[0]] + rest)[1..] == rest;
      }
    }
  }

  /** Kept characters are never upper-case. */
  lemma KeptNotUpper(s: string)
    requires forall c :: c in s ==> Kept(c)
    ensures Lower(s) == s
  {
    forall i | 0 <= i < |s|
      ensures !IsUpper(s[i])
    {
      assert s[i] in s;
    }
    LowerNoop(s);
  }

  /** Normalising normalised text changes nothing. */
  lemma NormalizeTextIdempotent(str: Option<string>)
    ensures NormalizeText(Some(NormalizeText(str))) == NormalizeText(str)
  {
    var r := NormalizeText(str);
    if r != "" {
      KeptNotUpper(r);
      assert forall c :: c in r ==> !JsSpace(c);
    }
  }

  // ---------------------------------------------------------------------
  // getSweetenerTagClass

  /** `getSweetenerTagClass`: allulose, erythritol and the two spellings of
      sugar alcohol have a tag class; any other name has none. */
  function SweetenerTagClass(name: string): (r: string)
    ensures r == "zse-tag-allulose" <==> name == "알룰로오스"
    ensures r == "zse-tag-erythritol" <==> name == "에리스리톨"
    ensures r == "zse-tag-polyol" <==> name == "당알코올" || name == "당알콜"
    ensures r == "" <==> name != "알룰로오스" && name != "에리스리톨" && name != "당알코올" && name != "당알콜"
  {
    if name == "알룰로오스" then "zse-tag-allulose"
    else if name == "에리스리톨" then "zse-tag-erythritol"
    else if name == "당알코올" || name == "당알콜" then "zse-tag-polyol"
    else ""
  }
}
