/**
 The `Url` collection of the short-link server, viewed as an in-memory table:
 the record shape, the single-field `findOne` query both handlers use, the
 custom-word character check, and the redirect lookup behind `GET /:shortUrl`.
 */
module Links {

  datatype Option<+T> = None | Some(value: T)

  /** One document of the `Url` collection. `customWord` is set only on
      records whose code the user chose; `createdAt` is not modelled. */
  datatype Record = Record(originalUrl: string, shortUrl: string, customWord: Option<string>)

  /** The two single-field filters the handlers pass to `findOne`. */
  datatype Filter = ByShortUrl(code: string) | ByOriginalUrl(url: string)

  predicate Matches(r: Record, f: Filter) {
    match f
    case ByShortUrl(code) => r.shortUrl == code
    case ByOriginalUrl(url) => r.originalUrl == url
  }

  /** `findOne(filter)`: the position of the first record that matches, or
      None when no record does. */
  function FindOne(t: seq<Record>, f: Filter): (r: Option<nat>)
    ensures r.Some? ==> r.value < |t| && Matches(t[r.value], f)
    ensures r.Some? ==> forall j :: 0 <= j < r.value ==> !Matches(t[j], f)
    ensures r.None? <==> forall j :: 0 <= j < |t| ==> !Matches(t[j], f)
  {
    if |t| == 0 then None
    else if Matches(t[0], f) then Some(0)
    else match FindOne(t[1..], f)
      case None => None
      case Some(k) => Some(k + 1)
  }

  /** The character class `[a-zA-Z0-9-_]`: the `-` after the range `0-9`
      stands for itself, and the letters are ASCII letters only. */
  predicate IsWordChar(c: char) {
    ('a' <= c <= 'z') || ('A' <= c <= 'Z') || ('0' <= c <= '9') || c == '-' || c == '_'
  }

  function AllWordChars(s: string): (b: bool)
    ensures b <==> forall i :: 0 <= i < |s| ==> IsWordChar(s[i])
  {
    |s| == 0 || (IsWordChar(s[0]) && AllWordChars(s[1..]))
  }

  /** The anchored test `/^[a-zA-Z0-9-_]+$/.test(word)`: at least one
      character, and every character in the class. */
  function MatchesCustomWordPattern(word: string): (b: bool)
    ensures b <==> |word| > 0 && forall i :: 0 <= i < |word| ==> IsWordChar(word[i])
  {
    |word| > 0 && AllWordChars(word)
  }

  /** JavaScript truthiness of the `customWord` body field: absent and the
      empty string are falsy. */
  predicate IsTruthy(customWord: Option<string>) {
    customWord.Some? && customWord.value != []
  }

  /** Some record carries `code` as its short code. */
  predicate HasShortUrl(t: seq<Record>, code: string) {
    exists i :: 0 <= i < |t| && t[i].shortUrl == code
  }

  /** Some record is stored for `url`. */
  predicate HasOriginalUrl(t: seq<Record>, url: string) {
    exists i :: 0 <= i < |t| && t[i].originalUrl == url
  }

  /** `i` is the position `findOne({ originalUrl: url })` answers with. */
  predicate FirstWithUrl(t: seq<Record>, url: string, i: int) {
    0 <= i < |t| && t[i].originalUrl == url &&
    forall j :: 0 <= j < i ==> t[j].originalUrl != url
  }

  /** `i` is the position `findOne({ shortUrl: code })` answers with. */
  predicate FirstWithCode(t: seq<Record>, code: string, i: int) {
    0 <= i < |t| && t[i].shortUrl == code &&
    forall j :: 0 <= j < i ==> t[j].shortUrl != code
  }

  /** No two records share a short code. */
  ghost predicate UniqueShortUrls(t: seq<Record>) {
    forall i, j :: 0 <= i < j < |t| ==> t[i].shortUrl != t[j].shortUrl
  }

  /** No two records are stored for the same original URL. */
  ghost predicate UniqueOriginalUrls(t: seq<Record>) {
    forall i, j :: 0 <= i < j < |t| ==> t[i].originalUrl != t[j].originalUrl
  }

  /** `GET /:shortUrl`: the target of the first record whose short code is
      exactly `code` (the redirect), or None (the 404 "URL not found"). */
  function Resolve(t: seq<Record>, code: string): (r: Option<string>)
    ensures r.None? <==> !HasShortUrl(t, code)
    ensures r.Some? ==> exists i :: FirstWithCode(t, code, i) && t[i].originalUrl == r.value
  {
    match FindOne(t, ByShortUrl(code))
    case None => None
    case Some(i) => Some(t[i].originalUrl)
  }

  /** With unique short codes, every record's code redirects to that record's
      own target. */
  lemma ResolveOwnCode(t: seq<Record>, i: nat)
    requires UniqueShortUrls(t)
    requires i < |t|
    ensures Resolve(t, t[i].shortUrl) == Some(t[i].originalUrl)
  {
  }
}
