/**
 The `POST /api/shorten` handler. `ShortenStep` gives, for a table and a
 request, the response and the table afterwards; `Store` holds the table and
 its `Shorten` method performs the handler's queries and writes in order,
 overwriting a found record in place or appending a new one.
 */
module Shortener {
  import opened Links

  /** The two 400 answers. */
  datatype ShortenError = InvalidCustomWord | CustomWordInUse

  /** The 200 body, with the code in place of the full `protocol://host/code`
      string; `updated` is false where the body leaves it out. */
  datatype Shortened = Shortened(shortUrl: string, isExisting: bool, updated: bool)

  datatype Response = Ok(body: Shortened) | BadRequest(error: ShortenError)

  /** A response together with the table it leaves behind. */
  datatype Step = Step(response: Response, table: seq<Record>)

  /** The `error` text of each 400 answer. */
  function ErrorMessage(e: ShortenError): string {
    match e
    case InvalidCustomWord => "Custom word can only contain letters, numbers, hyphens and underscores"
    case CustomWordInUse => "Custom word is already in use"
  }

  /** A custom word was given, passes the character check and is not yet
      any record's code: the two 400 answers do not apply. */
  predicate CustomWordAccepted(t: seq<Record>, customWord: Option<string>) {
    IsTruthy(customWord) && MatchesCustomWordPattern(customWord.value) && !HasShortUrl(t, customWord.value)
  }

  /** The code `shortid.generate()` would return is not in use yet, on the
      one branch where the handler calls it: no custom word, URL not stored. */
  predicate GeneratedCodeFresh(t: seq<Record>, url: string, customWord: Option<string>, generated: string) {
    !IsTruthy(customWord) && !HasOriginalUrl(t, url) ==> !HasShortUrl(t, generated)
  }

  /** One request `{ url, customWord }` against table `t`. `generated` stands
      for the value `shortid.generate()` would return; it is used only when a
      new record with a generated code is created. */
  function ShortenStep(t: seq<Record>, url: string, customWord: Option<string>, generated: string): (o: Step)
    // a custom word with a character outside the class is refused, nothing written
    ensures IsTruthy(customWord) && !MatchesCustomWordPattern(customWord.value) ==>
      o == Step(BadRequest(InvalidCustomWord), t)
    // a custom word some record (any record) already uses as its code is refused
    ensures IsTruthy(customWord) && MatchesCustomWordPattern(customWord.value) && HasShortUrl(t, customWord.value) ==>
      o == Step(BadRequest(CustomWordInUse), t)
    // a fresh, valid custom word for a stored URL rewrites that record alone
    ensures forall i :: CustomWordAccepted(t, customWord) && FirstWithUrl(t, url, i) ==>
        && o.response == Ok(Shortened(customWord.value, true, true))
        && |o.table| == |t|
        && o.table[i] == Record(url, customWord.value, Some(customWord.value))
        && (forall j :: 0 <= j < |t| && j != i ==> o.table[j] == t[j])
    // a fresh, valid custom word for a new URL appends one record
    ensures CustomWordAccepted(t, customWord) && !HasOriginalUrl(t, url) ==>
        o == Step(Ok(Shortened(customWord.value, false, false)),
                  t + [Record(url, customWord.value, Some(customWord.value))])
    // no custom word and a stored URL: its current code, nothing written
    ensures forall i :: !IsTruthy(customWord) && FirstWithUrl(t, url, i) ==>
      o == Step(Ok(Shortened(t[i].shortUrl, true, false)), t)
    // no custom word and a new URL: one record with the generated code
    ensures !IsTruthy(customWord) && !HasOriginalUrl(t, url) ==>
      o == Step(Ok(Shortened(generated, false, false)), t + [Record(url, generated, None)])
  {
    if IsTruthy(customWord) then
      var word := customWord.value;
      if !MatchesCustomWordPattern(word) then Step(BadRequest(InvalidCustomWord), t)
      else if FindOne(t, ByShortUrl(word)).Some? then Step(BadRequest(CustomWordInUse), t)
      else match FindOne(t, ByOriginalUrl(url))
        case Some(i) =>
          Step(Ok(Shortened(word, true, true)), t[i := t[i].(shortUrl := word, customWord := Some(word))])
        case None =>
          Step(Ok(Shortened(word, false, false)), t + [Record(url, word, Some(word))])
    else match FindOne(t, ByOriginalUrl(url))
      case Some(i) => Step(Ok(Shortened(t[i].shortUrl, true, false)), t)
      case None => Step(Ok(Shortened(generated, false, false)), t + [Record(url, generated, None)])
  }

  /** The `Url` collection the handlers read and write. */
  class Store {
    var records: seq<Record>

    /** Both uniqueness properties hold of the stored table. */
    ghost predicate Valid()
      reads this
    {
      UniqueShortUrls(records) && UniqueOriginalUrls(records)
    }

    constructor ()
      ensures records == [] && Valid()
    {
      records := [];
    }

    /** `POST /api/shorten` with body `{ url, customWord }`. */
    method Shorten(url: string, customWord: Option<string>, generated: string) returns (r: Response)
      modifies this
      ensures Step(r, records) == ShortenStep(old(records), url, customWord, generated)
      ensures old(Valid()) && GeneratedCodeFresh(old(records), url, customWord, generated) ==> Valid()
    {
      ghost var before := records;
      if IsTruthy(customWord) {
        var word := customWord.value;
        if !MatchesCustomWordPattern(word) {
          return BadRequest(InvalidCustomWord);
        }
        var existingCustomWord := FindOne(records, ByShortUrl(word));
        if existingCustomWord.Some? {
          return BadRequest(CustomWordInUse);
        }
        var existingUrl := FindOne(records, ByOriginalUrl(url));
        if existingUrl.Some? {
          var i := existingUrl.value;
          records := records[i := records[i].(shortUrl := word, customWord := Some(word))];
          r := Ok(Shortened(word, true, true));
        } else {
          records := records + [Record(url, word, Some(word))];
          r := Ok(Shortened(word, false, false));
        }
      } else {
        var existingUrl := FindOne(records, ByOriginalUrl(url));
        if existingUrl.Some? {
          return Ok(Shortened(records[existingUrl.value].shortUrl, true, false));
        }
        records := records + [Record(url, generated, None)];
        r := Ok(Shortened(generated, false, false));
      }
      ShortenPreservesUniqueness(before, url, customWord, generated);
    }
  }

  /** Every request keeps the original URLs unique. It keeps the short codes
      unique too, unless it creates a record with a generated code that is
      already in use. */
  lemma ShortenPreservesUniqueness(t: seq<Record>, url: string, customWord: Option<string>, generated: string)
    ensures UniqueShortUrls(t) && GeneratedCodeFresh(t, url, customWord, generated) ==>
      UniqueShortUrls(ShortenStep(t, url, customWord, generated).table)
    ensures UniqueOriginalUrls(t) ==> UniqueOriginalUrls(ShortenStep(t, url, customWord, generated).table)
  {
  }
}
