/** The page-title rule of `SEOHead` (`src/app/components/SEOHead.jsx`). */
module Seo {
  import opened Js

  /** The site name appended to page titles. */
  const Brand: string := "Học Tiếng Trung HSK"

  /** The title used when a page passes none. */
  const DefaultTitle: string := Brand

  /** `fullTitle`: a title that already mentions the site name is kept,
      any other gets " | " and the site name appended. */
  function FullTitle(title: string): (r: string)
    ensures Contains(r, Brand)
    ensures Contains(title, Brand) ==> r == title
    ensures !Contains(title, Brand) ==> |r| > |title| && r[..|title|] == title && r[|title|..] == " | " + Brand
  {
    if Contains(title, Brand) then title
    else
      ContainsSuffix(title + " | ", Brand);
      assert title + " | " + Brand == (title + " | ") + Brand;
      title + " | " + Brand
  }

  /** Suffixing twice is suffixing once. */
  lemma FullTitleIdempotent(title: string)
    ensures FullTitle(FullTitle(title)) == FullTitle(title)
  {
  }

  /** The default title is already complete. */
  lemma DefaultTitleUnchanged()
    ensures FullTitle(DefaultTitle) == DefaultTitle
  {
    ContainsSuffix([], Brand);
    assert [] + Brand == Brand;
  }
}
