/** The catalog entry the crawler builds for one search-result row, and its canonical URL. */
module Model {
  import opened Wrappers
  import opened PyText

  /**
   * One manga: `path` is the relative link of its title page and identifies
   * it; `rating` is the community rating as read from the page (a float in
   * the source, kept abstract here).
   */
  datatype Manga = Manga(path: string, name: string, rating: real, votes: int, views: int, follows: int)

  const Origin: string := "https://mangadex.org"

  /** The absolute address of a manga: the site origin followed by its path. */
  function Url(m: Manga): string {
    Origin + m.path
  }

  /**
   * The inverse of `Url`: recovers the path from an absolute address on the
   * site, or `None` for any other address.
   */
  function PathOfUrl(u: string): (p: Option<string>)
    ensures p.Some? <==> IsPrefix(Origin, u)
    ensures p.Some? ==> Origin + p.value == u
  {
    assert IsPrefix(Origin, u) ==> u == u[..|Origin|] + u[|Origin|..];
    if IsPrefix(Origin, u) then Some(u[|Origin|..]) else None
  }

  /** The path can be read back from the URL. */
  lemma {:induction false} UrlRoundTrip(m: Manga)
    ensures PathOfUrl(Url(m)) == Some(m.path)
  {
    assert Url(m)[..|Origin|] == Origin;
    assert Url(m)[|Origin|..] == m.path;
  }

  /** Two manga have the same URL exactly when they have the same path. */
  lemma {:induction false} UrlDeterminesPath(a: Manga, b: Manga)
    ensures Url(a) == Url(b) <==> a.path == b.path
  {
    if Url(a) == Url(b) {
      UrlRoundTrip(a);
      UrlRoundTrip(b);
    }
  }
}
