/** MinerDataCollector.extract_json_from_response: recover a JSON payload from an
    HTTP response whose body may be pure JSON or JSON wrapped in HTML. */
module Extractor {
  import opened Wrappers
  import opened Telemetry

  /** The parsed HTML document as BeautifulSoup presents it to the extractor:
      for a tag name, the text of the FIRST element with that tag (soup.find
      followed by get_text), or None when the document has no such element. */
  type Soup = string -> Option<string>

  /** Why no payload was returned: the fetch raised a RequestException (wrapped
      as "Failed to fetch data from ..."), or every attempt failed ("Could not
      extract valid JSON from response"). */
  datatype ExtractError = FetchFailed | NoValidJson

  /** The tags searched, in priority order. */
  const SearchTags: seq<string> := ["pre", "code", "script"]

  /** str.find for one character: the first index of c, or -1. */
  function Find(s: string, c: char): (r: int)
    ensures -1 <= r < |s|
    ensures r == -1 ==> forall k :: 0 <= k < |s| ==> s[k] != c
    ensures r >= 0 ==> s[r] == c && forall k :: 0 <= k < r ==> s[k] != c
  {
    if |s| == 0 then -1
    else if s[0] == c then 0
    else
      var k := Find(s[1..], c);
      if k == -1 then -1 else k + 1
  }

  /** str.rfind for one character: the last index of c, or -1. */
  function RFind(s: string, c: char): (r: int)
    ensures -1 <= r < |s|
    ensures r == -1 ==> forall k :: 0 <= k < |s| ==> s[k] != c
    ensures r >= 0 ==> s[r] == c && forall k :: r < k < |s| ==> s[k] != c
  {
    if |s| == 0 then -1
    else if s[|s| - 1] == c then |s| - 1
    else RFind(s[..|s| - 1], c)
  }

  /** Python slicing s[i:j] with in-range bounds: empty when j <= i. */
  function PySlice(s: string, i: nat, j: nat): (r: string)
    requires i <= |s| && j <= |s|
    ensures |r| == if i <= j then j - i else 0
  {
    if i <= j then s[i..j] else []
  }

  /** text[i..j] is a match of the pattern (\{.*\}) under re.DOTALL. */
  predicate IsBraceMatch(text: string, i: int, j: int)
  {
    0 <= i < j < |text| && text[i] == '{' && text[j] == '}'
  }

  /** re.search(r'(\{.*\})', text, re.DOTALL).group(1). The search takes the
      leftmost start at which the pattern matches, and from there the greedy
      .* (which under DOTALL also crosses newlines) backs off only as far as
      the last '}'. So there is a match exactly when some '}' follows some
      '{', and it is the span from the first '{' to the last '}'. */
  function BraceSpan(text: string): (m: Option<string>)
    ensures m.Some? <==> exists i, j :: IsBraceMatch(text, i, j)
    ensures m.Some? ==> |m.value| >= 2 && m.value[0] == '{' && m.value[|m.value| - 1] == '}'
  {
    var i, j := Find(text, '{'), RFind(text, '}');
    if 0 <= i < j then
      assert IsBraceMatch(text, i, j);
      Some(text[i..j + 1])
    else None
  }

  /** The match is the leftmost and, from there, the longest one. */
  lemma BraceSpanIsLeftmostLongest(text: string)
    requires BraceSpan(text).Some?
    ensures exists s, e ::
      IsBraceMatch(text, s, e) && BraceSpan(text).value == text[s..e + 1] &&
      forall i, j :: IsBraceMatch(text, i, j) ==> s <= i && j <= e
  {
    var s, e := Find(text, '{'), RFind(text, '}');
    assert IsBraceMatch(text, s, e);
  }

  /** The text one tag contributes: the brace span of its first element's text. */
  function TagCandidate(soup: Soup, tag: string): (c: Option<string>)
    ensures c.Some? <==> soup(tag).Some? && exists i, j :: IsBraceMatch(soup(tag).value, i, j)
    ensures c.Some? ==> |c.value| >= 2 && c.value[0] == '{' && c.value[|c.value| - 1] == '}'
  {
    match soup(tag)
    case None => None
    case Some(t) => BraceSpan(t)
  }

  function TagCandidates(tags: seq<string>, soup: Soup): (cs: seq<Option<string>>)
    ensures |cs| == |tags|
    ensures forall k :: 0 <= k < |tags| ==> cs[k] == TagCandidate(soup, tags[k])
  {
    seq(|tags|, k requires 0 <= k < |tags| => TagCandidate(soup, tags[k]))
  }

  /** The last resort: text[start:end] with start = text.find('{') and
      end = text.rfind('}') + 1, attempted only when start != -1 and end != 0. */
  function FallbackCandidate(text: string): (c: Option<string>)
    ensures c.Some? ==> |c.value| <= |text|
    ensures c.Some? && |c.value| > 0 ==> c.value[0] == '{' && c.value[|c.value| - 1] == '}'
  {
    var start := Find(text, '{');
    var end := RFind(text, '}') + 1;
    if start != -1 && end != 0 then Some(PySlice(text, start, end)) else None
  }

  /** One attempt: json.loads of the candidate text, nothing when there is no text. */
  function Attempt(candidate: Option<string>, parse: Parser): Option<Json>
  {
    match candidate
    case None => None
    case Some(t) => parse(t)
  }

  /** The value of the first candidate that parses, trying them in order. */
  function FirstParsed(candidates: seq<Option<string>>, parse: Parser): (r: Option<Json>)
    ensures r.Some? ==> exists k :: 0 <= k < |candidates| && Attempt(candidates[k], parse) == r
  {
    if |candidates| == 0 then None
    else
      var a := Attempt(candidates[0], parse);
      if a.Some? then a
      else
        var rest := FirstParsed(candidates[1..], parse);
        assert forall k :: 1 <= k < |candidates| ==> candidates[1..][k - 1] == candidates[k];
        rest
  }

  /** The extractor, branch for branch as the source is written. */
  function ExtractJsonFromResponse(resp: Response, soup: Soup, parse: Parser): (r: Result<Json, ExtractError>)
    ensures r == Err(FetchFailed) <==> resp.Unreachable? || IsHttpError(resp.status)
  {
    match resp
    case Unreachable => Err(FetchFailed)
    case Delivered(status, body) =>
      if IsHttpError(status) then Err(FetchFailed)
      else if parse(body).Some? then Ok(parse(body).value)
      else
        var fromTags := FirstParsed(TagCandidates(SearchTags, soup), parse);
        if fromTags.Some? then Ok(fromTags.value)
        else
          var last := Attempt(FallbackCandidate(body), parse);
          if last.Some? then Ok(last.value) else Err(NoValidJson)
  }

  /** The chain of attempts as one list: the whole body, the three tags in
      order, then the first-'{'-to-last-'}' fallback. */
  function Attempts(body: string, soup: Soup): (cs: seq<Option<string>>)
    ensures |cs| == 2 + |SearchTags|
  {
    [Some(body)] + TagCandidates(SearchTags, soup) + [FallbackCandidate(body)]
  }

  /** The first success wins: FirstParsed fails exactly when every attempt
      fails, and otherwise returns what the first successful attempt parsed. */
  lemma {:induction false} FirstParsedIsFirstSuccess(cs: seq<Option<string>>, parse: Parser)
    ensures FirstParsed(cs, parse).None? <==> forall k :: 0 <= k < |cs| ==> Attempt(cs[k], parse).None?
    ensures forall k ::
      0 <= k < |cs| && Attempt(cs[k], parse).Some? &&
      (forall j :: 0 <= j < k ==> Attempt(cs[j], parse).None?) ==>
        FirstParsed(cs, parse) == Attempt(cs[k], parse)
  {
    if |cs| > 0 {
      FirstParsedIsFirstSuccess(cs[1..], parse);
      assert forall k :: 1 <= k < |cs| ==> cs[1..][k - 1] == cs[k];
    }
  }

  lemma {:induction false} FirstParsedAppend(a: seq<Option<string>>, b: seq<Option<string>>, parse: Parser)
    ensures FirstParsed(a + b, parse) ==
      if FirstParsed(a, parse).Some? then FirstParsed(a, parse) else FirstParsed(b, parse)
  {
    if |a| > 0 {
      assert (a + b)[0] == a[0];
      assert (a + b)[1..] == a[1..] + b;
      FirstParsedAppend(a[1..], b, parse);
    } else {
      assert a + b == b;
    }
  }

  /** The extractor is exactly "first success wins" over the attempt chain. */
  lemma ExtractIsFirstSuccess(status: int, body: string, soup: Soup, parse: Parser)
    requires !IsHttpError(status)
    ensures ExtractJsonFromResponse(Delivered(status, body), soup, parse) ==
      match FirstParsed(Attempts(body, soup), parse)
      case Some(v) => Ok(v)
      case None => Err(NoValidJson)
  {
    var tags := TagCandidates(SearchTags, soup);
    var fallback := [FallbackCandidate(body)];
    FirstParsedAppend([Some(body)] + tags, fallback, parse);
    FirstParsedAppend([Some(body)], tags, parse);
    assert FirstParsed(fallback, parse) == Attempt(FallbackCandidate(body), parse);
  }

  /** If the whole body parses, that value is returned and the HTML view is
      never consulted. */
  lemma ExtractWholeBodyWins(status: int, body: string, soup: Soup, other: Soup, parse: Parser)
    requires !IsHttpError(status) && parse(body).Some?
    ensures ExtractJsonFromResponse(Delivered(status, body), soup, parse) == Ok(parse(body).value)
    ensures ExtractJsonFromResponse(Delivered(status, body), other, parse) ==
            ExtractJsonFromResponse(Delivered(status, body), soup, parse)
  {
  }

  /** Tags are tried in order, each by its first element only: when the
      whole body does not parse, tag k's candidate parses and no earlier tag's
      does, tag k's value is returned. */
  lemma ExtractTagOrder(status: int, body: string, soup: Soup, parse: Parser, k: nat)
    requires !IsHttpError(status) && parse(body).None?
    requires k < |SearchTags|
    requires Attempt(TagCandidate(soup, SearchTags[k]), parse).Some?
    requires forall j :: 0 <= j < k ==> Attempt(TagCandidate(soup, SearchTags[j]), parse).None?
    ensures ExtractJsonFromResponse(Delivered(status, body), soup, parse) ==
            Ok(Attempt(TagCandidate(soup, SearchTags[k]), parse).value)
  {
    FirstParsedIsFirstSuccess(TagCandidates(SearchTags, soup), parse);
  }

  /** The fallback is attempted only when both a '{' and a '}' occur; when a
      '}' follows the first '{' it is the same span as the regex match, and
      otherwise (the last '}' precedes the first '{') it is the empty string. */
  lemma FallbackCandidateSpec(text: string)
    ensures FallbackCandidate(text).Some? <==> '{' in text && '}' in text
    ensures BraceSpan(text).Some? ==> FallbackCandidate(text) == BraceSpan(text)
    ensures FallbackCandidate(text).Some? && BraceSpan(text).None? ==> FallbackCandidate(text) == Some("")
  {
    var start, last := Find(text, '{'), RFind(text, '}');
    if '{' in text {
      var i :| 0 <= i < |text| && text[i] == '{';
      assert start != -1;
    }
    if '}' in text {
      var j :| 0 <= j < |text| && text[j] == '}';
      assert last != -1;
    }
  }

  /** With a parser that rejects the empty text, a reversed pair of braces
      makes the fallback fail. */
  lemma FallbackFailsWhenReversed(text: string, parse: Parser)
    requires parse("").None?
    requires BraceSpan(text).None?
    ensures Attempt(FallbackCandidate(text), parse).None?
  {
    FallbackCandidateSpec(text);
  }

  /** Extraction fails with "Could not extract valid JSON" exactly when every
      attempt of the chain fails; it never returns a partial value. */
  lemma ExtractFailsIffAllAttemptsFail(status: int, body: string, soup: Soup, parse: Parser)
    requires !IsHttpError(status)
    ensures ExtractJsonFromResponse(Delivered(status, body), soup, parse) == Err(NoValidJson) <==>
      forall k :: 0 <= k < |Attempts(body, soup)| ==> Attempt(Attempts(body, soup)[k], parse).None?
    ensures ExtractJsonFromResponse(Delivered(status, body), soup, parse).Ok? ==>
      exists k :: 0 <= k < |Attempts(body, soup)| &&
        Attempt(Attempts(body, soup)[k], parse) == Some(ExtractJsonFromResponse(Delivered(status, body), soup, parse).value)
  {
    var cs := Attempts(body, soup);
    ExtractIsFirstSuccess(status, body, soup, parse);
    FirstParsedIsFirstSuccess(cs, parse);
    if FirstParsed(cs, parse).Some? {
      var k := FirstIndexParsed(cs, parse);
    }
  }

  /** The index of the first attempt that parses, when there is one. */
  lemma FirstIndexParsed(cs: seq<Option<string>>, parse: Parser) returns (k: nat)
    requires FirstParsed(cs, parse).Some?
    ensures k < |cs| && Attempt(cs[k], parse) == FirstParsed(cs, parse)
  {
    if Attempt(cs[0], parse).Some? {
      k := 0;
    } else {
      var k' := FirstIndexParsed(cs[1..], parse);
      k := k' + 1;
    }
  }

  /** A body with no '{' anywhere, and no '{' in any searched element, that
      does not parse as a whole yields "Could not extract valid JSON". */
  lemma ExtractWithoutBraces(status: int, body: string, soup: Soup, parse: Parser)
    requires !IsHttpError(status) && parse(body).None?
    requires '{' !in body
    requires forall k :: 0 <= k < |SearchTags| && soup(SearchTags[k]).Some? ==> '{' !in soup(SearchTags[k]).value
    ensures ExtractJsonFromResponse(Delivered(status, body), soup, parse) == Err(NoValidJson)
  {
    FallbackCandidateSpec(body);
    forall k | 0 <= k < |SearchTags|
      ensures TagCandidate(soup, SearchTags[k]).None?
    {
    }
    FirstParsedIsFirstSuccess(TagCandidates(SearchTags, soup), parse);
  }
}
