/** The series feed input: page and limit, both required, both in 1..100. */
module SeriesInput {

  import opened Common
  import opened Schema

  datatype SeriesFeed = SeriesFeed(page: int, limit: int)

  const MIN_VALUE := 1
  const MAX_VALUE := 100

  function ParseSeriesFeed(v: Raw): (r: Parsed<SeriesFeed>)
    ensures r.Ok? <==> (v.Obj? &&
                        Field(v.fields, "page").Num? && MIN_VALUE <= Field(v.fields, "page").n <= MAX_VALUE &&
                        Field(v.fields, "limit").Num? && MIN_VALUE <= Field(v.fields, "limit").n <= MAX_VALUE)
    ensures r.Ok? ==> r.value == SeriesFeed(Field(v.fields, "page").n, Field(v.fields, "limit").n)
  {
    if !v.Obj? then Invalid
    else
      var page := BoundedNumber(Field(v.fields, "page"), Some(MIN_VALUE), Some(MAX_VALUE));
      var limit := BoundedNumber(Field(v.fields, "limit"), Some(MIN_VALUE), Some(MAX_VALUE));
      if page.Invalid? || limit.Invalid? then Invalid else Ok(SeriesFeed(page.value, limit.value))
  }

  /** There are no defaults: leaving out either field is refused; 0 and 101 are refused, 1 and 100 accepted. */
  lemma SeriesBounds(n: int)
    ensures ParseSeriesFeed(Obj(map["page" := Num(n)])).Invalid?
    ensures ParseSeriesFeed(Obj(map["limit" := Num(n)])).Invalid?
    ensures ParseSeriesFeed(Obj(map["page" := Num(0), "limit" := Num(n)])).Invalid?
    ensures ParseSeriesFeed(Obj(map["page" := Num(n), "limit" := Num(101)])).Invalid?
    ensures ParseSeriesFeed(Obj(map["page" := Num(1), "limit" := Num(100)])) == Ok(SeriesFeed(1, 100))
  {
    assert Field(map["page" := Num(n)], "limit") == Undefined;
    assert Field(map["limit" := Num(n)], "page") == Undefined;
  }
}
