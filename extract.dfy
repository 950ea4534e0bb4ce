/**
 * Row extraction in `parse_and_store_feed`. The HTML parser is outside the model:
 * a fetched page is already the list of its `div.row` elements, and each row
 * keeps only the parts the extraction looks at. Every text is the parser's
 * `get_text(strip=True)` of that element.
 */
module Extract {
  import opened Wrappers

  /** A `div.text-center` inside the article: whether it has a `<b>` descendant, and its text. */
  datatype TextCenterDiv = TextCenterDiv(hasBold: bool, text: string)

  /** The first `a.title-link` inside the heading: its text and its `href` attribute, if any. */
  datatype TitleLink = TitleLink(text: string, href: Option<string>)

  /** The first `h1` inside the article. */
  datatype Heading = Heading(titleLink: Option<TitleLink>)

  /** The first `div.article` inside the row, with all its `div.text-center`
      descendants in document order. */
  datatype Article = Article(h1: Option<Heading>, textCenters: seq<TextCenterDiv>)

  /** One `div.row` of the page. */
  datatype Row = Row(article: Option<Article>)

  /** What a complete row yields: title, unprefixed link and additional info. */
  datatype Candidate = Candidate(title: string, link: string, info: string)

  /** Per row: no candidate (one of the early `continue`s), a title link without
      `href` (the subscript `title_tag['href']` raises `KeyError`, which ends the
      whole run), or a candidate. */
  datatype RowOutcome = NoCandidate | MissingHref | Found(candidate: Candidate)

  /** `k` is the first div that has a `<b>` descendant. */
  predicate IsFirstBold(divs: seq<TextCenterDiv>, k: int) {
    0 <= k < |divs| && divs[k].hasBold && forall j :: 0 <= j < k ==> !divs[j].hasBold
  }

  /** There is at most one first bold div. */
  lemma FirstBoldUnique(divs: seq<TextCenterDiv>, k: int, k': int)
    requires IsFirstBold(divs, k) && IsFirstBold(divs, k')
    ensures k == k'
  {
  }

  /** The index of the first div that has a `<b>` descendant (the loop that `break`s). */
  function FirstBoldDiv(divs: seq<TextCenterDiv>): (r: Option<nat>)
    ensures r.Some? ==> IsFirstBold(divs, r.value)
    ensures r.None? ==> forall j :: 0 <= j < |divs| ==> !divs[j].hasBold
  {
    if divs == [] then None
    else if divs[0].hasBold then Some(0)
    else match FirstBoldDiv(divs[1..])
      case None => None
      case Some(k) =>
        assert forall j :: 1 <= j < k + 1 ==> divs[j] == divs[1..][j - 1];
        Some(k + 1)
  }

  /** The parts the extraction reads before the info, all present, with an `href`. */
  predicate HasLinkedTitle(row: Row) {
    && row.article.Some? && row.article.value.h1.Some?
    && row.article.value.h1.value.titleLink.Some?
    && row.article.value.h1.value.titleLink.value.href.Some?
  }

  /** The extraction of one row: article, heading and title link must be present;
      the href is read next; then the first bold text-center div supplies the
      additional info, which must be non-empty. A row yields a candidate exactly
      when all of these hold, and the candidate is then made of the title link's
      text, its `href` and the first bold div's text. */
  function ExtractRow(row: Row): (r: RowOutcome)
    ensures r.Found? ==>
      && HasLinkedTitle(row)
      && r.candidate.title == row.article.value.h1.value.titleLink.value.text
      && r.candidate.link == row.article.value.h1.value.titleLink.value.href.value
    ensures r.Found? ==>
      var divs := row.article.value.textCenters;
      exists k :: IsFirstBold(divs, k) && divs[k].text == r.candidate.info
    ensures r.Found? ==> r.candidate.info != ""
    ensures HasLinkedTitle(row) && FirstBoldDiv(row.article.value.textCenters).Some? ==>
      var divs := row.article.value.textCenters;
      var info := divs[FirstBoldDiv(divs).value].text;
      info != "" ==>
        r == Found(Candidate(row.article.value.h1.value.titleLink.value.text,
                             row.article.value.h1.value.titleLink.value.href.value, info))
    ensures r.MissingHref? <==>
      && row.article.Some? && row.article.value.h1.Some?
      && row.article.value.h1.value.titleLink.Some?
      && row.article.value.h1.value.titleLink.value.href.None?
  {
    match row.article
    case None => NoCandidate
    case Some(article) =>
      match article.h1
      case None => NoCandidate
      case Some(h1) =>
        match h1.titleLink
        case None => NoCandidate
        case Some(titleTag) =>
          match titleTag.href
          case None => MissingHref
          case Some(link) =>
            match FirstBoldDiv(article.textCenters)
            case None => NoCandidate
            case Some(k) =>
              var info := article.textCenters[k].text;
              if info == "" then NoCandidate else Found(Candidate(titleTag.text, link, info))
  }

  /** Only the first bold div counts: when its text is empty the row yields
      nothing, whatever later bold divs hold. */
  lemma EmptyFirstBoldDivDropsRow(row: Row, k: nat)
    requires HasLinkedTitle(row) && IsFirstBold(row.article.value.textCenters, k)
    requires row.article.value.textCenters[k].text == ""
    ensures ExtractRow(row) == NoCandidate
  {
    var divs := row.article.value.textCenters;
    FirstBoldUnique(divs, FirstBoldDiv(divs).value, k);
  }

  /** A row whose first bold div is missing, or which lacks the article, the
      heading or the title link, yields nothing. */
  lemma IncompleteRowYieldsNothing(row: Row)
    requires || row.article.None?
             || row.article.value.h1.None?
             || row.article.value.h1.value.titleLink.None?
             || (row.article.value.h1.value.titleLink.value.href.Some?
                 && forall j :: 0 <= j < |row.article.value.textCenters| ==> !row.article.value.textCenters[j].hasBold)
    ensures ExtractRow(row).NoCandidate?
  {
  }
}
