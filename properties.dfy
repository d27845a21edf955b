/**
 What a sequence of requests to the short-link server achieves: a returned
 code redirects to the submitted URL, an alias retires the code it replaces,
 and a repeated submission without an alias is answered from the table.
 */
module ShortenerProperties {
  import opened Links
  import opened Shortener

  /** Shorten, then resolve: with unique codes, and a fresh code wherever
      one is generated, the code in any 200 answer redirects to the
      submitted URL. */
  lemma ShortenThenResolve(t: seq<Record>, url: string, customWord: Option<string>, generated: string)
    requires UniqueShortUrls(t)
    requires GeneratedCodeFresh(t, url, customWord, generated)
    ensures ShortenStep(t, url, customWord, generated).response.Ok? ==>
      Resolve(ShortenStep(t, url, customWord, generated).table,
              ShortenStep(t, url, customWord, generated).response.body.shortUrl) == Some(url)
  {
    var o := ShortenStep(t, url, customWord, generated);
    if o.response.Ok? {
      ShortenPreservesUniqueness(t, url, customWord, generated);
      var k := OkRecordPosition(t, url, customWord, generated);
      ResolveOwnCode(o.table, k);
    }
  }

  /** After a 200 answer, the record `findOne({ originalUrl: url })` finds
      in the new table is one whose code is the code answered. */
  lemma OkRecordPosition(t: seq<Record>, url: string, customWord: Option<string>, generated: string)
    returns (k: nat)
    requires ShortenStep(t, url, customWord, generated).response.Ok?
    ensures FirstWithUrl(ShortenStep(t, url, customWord, generated).table, url, k)
    ensures ShortenStep(t, url, customWord, generated).table[k].shortUrl ==
            ShortenStep(t, url, customWord, generated).response.body.shortUrl
  {
    var o := ShortenStep(t, url, customWord, generated);
    var existing := FindOne(t, ByOriginalUrl(url));
    if existing.Some? {
      k := existing.value;
      assert FirstWithUrl(t, url, k);
    } else {
      k := |t|;
      assert !HasOriginalUrl(t, url);
      assert o.table == t + [o.table[k]];
    }
  }

  /** After an alias overwrites the code of a stored URL, the code it
      replaced no longer resolves. */
  lemma UpdateRetiresOldCode(t: seq<Record>, url: string, word: string, generated: string, i: nat)
    requires UniqueShortUrls(t)
    requires CustomWordAccepted(t, Some(word))
    requires FirstWithUrl(t, url, i)
    ensures ShortenStep(t, url, Some(word), generated).response == Ok(Shortened(word, true, true))
    ensures Resolve(ShortenStep(t, url, Some(word), generated).table, t[i].shortUrl) == None
    ensures Resolve(ShortenStep(t, url, Some(word), generated).table, word) == Some(url)
  {
  }

  /** After any 200 answer for `url`, submitting `url` again without a
      custom word returns the same code as existing and writes nothing. */
  lemma ResubmitWithoutAliasIsExisting(t: seq<Record>, url: string, customWord: Option<string>,
                                       generated: string, noAlias: Option<string>, generated': string)
    requires !IsTruthy(noAlias)
    ensures ShortenStep(t, url, customWord, generated).response.Ok? ==>
      var o := ShortenStep(t, url, customWord, generated);
      ShortenStep(o.table, url, noAlias, generated') ==
        Step(Ok(Shortened(o.response.body.shortUrl, true, false)), o.table)
  {
    if ShortenStep(t, url, customWord, generated).response.Ok? {
      var k := OkRecordPosition(t, url, customWord, generated);
    }
  }

  /** The alias-in-use check looks at every record, the URL's own included:
      resubmitting a URL with the alias it already has is refused. */
  lemma ResubmitOwnAliasRejected(t: seq<Record>, i: nat, generated: string)
    requires i < |t|
    requires t[i].customWord == Some(t[i].shortUrl)
    requires MatchesCustomWordPattern(t[i].shortUrl)
    ensures ShortenStep(t, t[i].originalUrl, t[i].customWord, generated) == Step(BadRequest(CustomWordInUse), t)
  {
  }

  /** Create, repeat, alias, resolve: the code `abc123` from the first
      request stops resolving once the alias `mysite` replaces it. */
  lemma ExampleSession()
    ensures
      var url := "https://example.com";
      var s1 := ShortenStep([], url, None, "abc123");
      var s2 := ShortenStep(s1.table, url, None, "unused");
      var s3 := ShortenStep(s2.table, url, Some("mysite"), "unused");
      && s1.response == Ok(Shortened("abc123", false, false))
      && s2.response == Ok(Shortened("abc123", true, false))
      && s3.response == Ok(Shortened("mysite", true, true))
      && Resolve(s3.table, "mysite") == Some(url)
      && Resolve(s3.table, "abc123") == None
  {
  }

  /** `if (customWord)` sends an empty custom word down the same path as a
      missing one: the answer and the table are those of a plain request. */
  lemma EmptyCustomWordIsAbsent(t: seq<Record>, url: string, generated: string)
    ensures ShortenStep(t, url, Some(""), generated) == ShortenStep(t, url, None, generated)
  {
  }

  /** A 400 answer carries the bad-characters text exactly when a custom word
      was given that has a character outside the class, and the in-use text
      exactly when the word passes the check and some record already has it
      as its code. */
  lemma RefusalText(t: seq<Record>, url: string, customWord: Option<string>, generated: string)
    ensures ShortenStep(t, url, customWord, generated).response.BadRequest? ==>
      (ErrorMessage(ShortenStep(t, url, customWord, generated).response.error) ==
         "Custom word can only contain letters, numbers, hyphens and underscores"
       <==> IsTruthy(customWord) && exists i :: 0 <= i < |customWord.value| && !IsWordChar(customWord.value[i]))
    ensures ShortenStep(t, url, customWord, generated).response.BadRequest? ==>
      (ErrorMessage(ShortenStep(t, url, customWord, generated).response.error) == "Custom word is already in use"
       <==> IsTruthy(customWord) && MatchesCustomWordPattern(customWord.value) && HasShortUrl(t, customWord.value))
  {
  }
}
