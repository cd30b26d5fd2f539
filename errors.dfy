/**
  Classifying a failed generation call by the text of its error, and the banner shown
  for each class.
 */
module Errors {
  import opened PyStr

  /** The three outcomes of the classification; `Other` keeps the raw error text. */
  datatype FailureKind = ModelNotFound | RateLimited | Other(detail: string)

  const ModelNotFoundBanner: string := "⚠️ 모델을 찾을 수 없습니다. API 키 설정을 다시 확인해주세요."
  const RateLimitedBanner: string := "⚠️ 너무 많은 요청이 들어왔습니다. 잠시 후 다시 시도해주세요."
  const OtherPrefix: string := "오류가 발생했습니다: "

  /** The `if "404" ... elif "429" ... else` chain on the error text, tested in that order. */
  function Classify(error: string): (f: FailureKind)
    ensures f == ModelNotFound <==> Contains(error, "404")
    ensures f == RateLimited <==> !Contains(error, "404") && Contains(error, "429")
    ensures f.Other? <==> !Contains(error, "404") && !Contains(error, "429")
    ensures f.Other? ==> f.detail == error
  {
    if Contains(error, "404") then ModelNotFound
    else if Contains(error, "429") then RateLimited
    else Other(error)
  }

  /** The error banner shown for each class. */
  function Banner(f: FailureKind): (b: string)
    ensures f.Other? ==> b == OtherPrefix + f.detail
  {
    match f
    case ModelNotFound => ModelNotFoundBanner
    case RateLimited => RateLimitedBanner
    case Other(detail) => OtherPrefix + detail
  }

  /** A "404" anywhere decides the class, whatever else the text holds, "429" included. */
  lemma NotFoundWins(prefix: string, suffix: string)
    ensures Classify(prefix + "404" + suffix) == ModelNotFound
  {
    var s := prefix + "404" + suffix;
    assert s[|prefix|..|prefix| + 3] == "404";
    assert OccursAt(s, "404", |prefix|);
  }

  /** Adding text to an error already classified as not found keeps it so. */
  lemma NotFoundStable(error: string, more: string)
    requires Classify(error) == ModelNotFound
    ensures Classify(error + more) == ModelNotFound && Classify(more + error) == ModelNotFound
  {
    ContainsConcat(error, more, "404");
    ContainsConcat(more, error, "404");
  }

  /** The banner tells the three classes apart, and an unclassified error is shown verbatim. */
  lemma BannerDistinguishes(e1: string, e2: string)
    ensures Banner(Classify(e1)) == Banner(Classify(e2)) ==> Classify(e1) == Classify(e2)
    ensures Classify(e1).Other? ==> Banner(Classify(e1))[|OtherPrefix|..] == e1
  {
    var f1, f2 := Classify(e1), Classify(e2);
    if f1 != f2 {
      if f1.Other? && f2.Other? {
        assert Banner(f1)[|OtherPrefix|..] == e1;
        assert Banner(f2)[|OtherPrefix|..] == e2;
      } else if f1.Other? || f2.Other? {
        assert ModelNotFoundBanner[0] != OtherPrefix[0];
        assert RateLimitedBanner[0] != OtherPrefix[0];
        assert Banner(f1)[0] != Banner(f2)[0];
      } else {
        assert ModelNotFoundBanner[3] != RateLimitedBanner[3];
      }
    }
  }
}
