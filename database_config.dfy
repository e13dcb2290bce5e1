/**
 * `get_sqlalchemy_uri`: the database URL from the environment, with a
 * leading `postgres://` rewritten to the `postgresql://` scheme name that
 * SQLAlchemy accepts. The environment read itself is the parameter.
 */
module DatabaseConfig {
  import opened Wrappers
  import opened PyText

  const OldScheme := "postgres://"
  const NewScheme := "postgresql://"

  /**
   * `None` and the empty string are falsy and come back as they are; a
   * URL starting with the old scheme gets one `replace` with count 1.
   */
  function SqlalchemyUri(databaseUrl: Option<string>): (r: Option<string>)
    ensures r.None? <==> databaseUrl.None?
    ensures databaseUrl.Some? && StartsWith(databaseUrl.value, OldScheme) ==>
      r == Some(NewScheme + databaseUrl.value[|OldScheme|..])
    ensures databaseUrl.Some? && !StartsWith(databaseUrl.value, OldScheme) ==> r == databaseUrl
  {
    if databaseUrl.Some? && databaseUrl.value != "" && StartsWith(databaseUrl.value, OldScheme) then
      var url := databaseUrl.value;
      assert url == OldScheme + url[|OldScheme|..];
      ReplaceLeading(OldScheme, NewScheme, url[|OldScheme|..], 1);
      assert Replace(url[|OldScheme|..], OldScheme, NewScheme, 0) == url[|OldScheme|..];
      Some(Replace(url, OldScheme, NewScheme, 1))
    else databaseUrl
  }

  /** The old scheme becomes the new one and the rest of the URL is kept, later occurrences included. */
  lemma RewritesScheme(rest: string)
    ensures SqlalchemyUri(Some(OldScheme + rest)) == Some(NewScheme + rest)
  {
    assert (OldScheme + rest)[..|OldScheme|] == OldScheme;
    ReplaceLeading(OldScheme, NewScheme, rest, 1);
  }

  /** Anything that does not start with the old scheme, `None` included, is returned unchanged. */
  lemma KeepsOtherUrls(databaseUrl: Option<string>)
    requires databaseUrl.None? || !StartsWith(databaseUrl.value, OldScheme)
    ensures SqlalchemyUri(databaseUrl) == databaseUrl
  {
  }

  /** The result never starts with the old scheme: the new one differs from it at index 8. */
  lemma NeverOldScheme(databaseUrl: Option<string>)
    ensures SqlalchemyUri(databaseUrl).Some? ==> !StartsWith(SqlalchemyUri(databaseUrl).value, OldScheme)
  {
    if databaseUrl.Some? && databaseUrl.value != "" && StartsWith(databaseUrl.value, OldScheme) {
      var url := databaseUrl.value;
      assert url == OldScheme + url[|OldScheme|..];
      RewritesScheme(url[|OldScheme|..]);
      assert (NewScheme + url[|OldScheme|..])[8] == 'q' != OldScheme[8];
    }
  }

  /** Rewriting twice is the same as rewriting once. */
  lemma Idempotent(databaseUrl: Option<string>)
    ensures SqlalchemyUri(SqlalchemyUri(databaseUrl)) == SqlalchemyUri(databaseUrl)
  {
    NeverOldScheme(databaseUrl);
    KeepsOtherUrls(SqlalchemyUri(databaseUrl));
  }
}
