/** The query handler of the ConvertCase plugin: for a non-empty search it offers the three
    conversions, each as a result that shows the converted text and keeps the search. */
module ConvertCase {
  import opened SnakeCase
  import opened PascalCase

  /** The part of a launcher result that the plugin fills from the search. */
  datatype ConvertResult = ConvertResult(
    queryTextDisplay: string,  // the search, shown in the query box when the result is selected
    title: string,             // the converted text
    subTitle: string,          // the name of the case style
    contextData: string        // the search, handed to the context menu
  )

  /** One result for `value`, the `search` converted to the style named `subTitle`. */
  function GenerateResult(search: string, value: string, subTitle: string): (r: ConvertResult)
    ensures r.title == value && r.subTitle == subTitle
    ensures r.contextData == search && r.queryTextDisplay == search
  {
    ConvertResult(search, value, subTitle, search)
  }

  /** No result for an empty search; otherwise snake_case, Upper_snake_case and PascalCase,
      in that order. */
  function Query(search: string): (r: seq<ConvertResult>)
    ensures |r| == if search == [] then 0 else 3
    ensures forall i :: 0 <= i < |r| ==> r[i].contextData == search && r[i].queryTextDisplay == search
    ensures search != [] ==> r[0].title == Underscore(search) && r[0].subTitle == "snake_case"
    ensures search != [] ==> r[1].title == ToUpperSnakeCase(search) && r[1].subTitle == "Upper_snake_case"
    ensures search != [] ==> r[2].title == Pascalize(search) && r[2].subTitle == "PascalCase"
  {
    if |search| == 0 then []
    else
      var snake := GenerateResult(search, Underscore(search), "snake_case");
      var upperSnake := GenerateResult(search, ToUpperSnakeCase(search), "Upper_snake_case");
      var pascal := GenerateResult(search, Pascalize(search), "PascalCase");
      [snake, upperSnake, pascal]
  }

  /** The three titles of a query are consistent: the second lowercases to the first, the
      first is already snake_case and the third is already PascalCase, and no title is empty. */
  lemma QueryTitlesAgree(search: string)
    requires search != []
    ensures ToLowerString(Query(search)[1].title) == Query(search)[0].title
    ensures Underscore(Query(search)[0].title) == Query(search)[0].title
    ensures Pascalize(Query(search)[2].title) == Query(search)[2].title
    ensures forall i :: 0 <= i < 3 ==> Query(search)[i].title != []
  {
    UpperSnakeLowersToSnake(search);
    UnderscoreIdempotent(search);
    PascalizeIdempotent(search);
  }
}
