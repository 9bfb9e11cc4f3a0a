/**
 * The patent record of the crawler: the labelled rows of a detail page are
 * copied into the record one at a time, and a record is only worth saving
 * when it has a title and enough of its bibliographic fields filled in.
 */
module Patents {
  import opened Wrappers

  /** The text fields of a patent, in the order the record declares them. */
  datatype Field =
    | Title | Url | NaviCode | Year | ApplicationType | ApplicationDate
    | PublicationNo | ApplyPublicationNo | AuthPublicationNo | MultiPublicationNo
    | PublicationDate | AuthPublicationDate | Applicant | ApplicantAddress | Inventors
    | ApplicationNo | AreaCode | ClassificationNo | MainClassificationNo | Agency | Agent
    | Page | Abstract | Sovereignty | LegalStatus

  /**
   * A patent record. The database bookkeeping columns (id, timestamps) are
   * not part of it. publicationNo is the merged publication number that the
   * store deduplicates on.
   */
  datatype Patent = Patent(
    title: string, url: string, naviCode: string, year: string,
    applicationType: string, applicationDate: string,
    publicationNo: string, applyPublicationNo: string, authPublicationNo: string,
    multiPublicationNo: string, publicationDate: string, authPublicationDate: string,
    applicant: string, applicantAddress: string, inventors: string,
    applicationNo: string, areaCode: string, classificationNo: string,
    mainClassificationNo: string, agency: string, agent: string, page: string,
    abstractText: string, sovereignty: string, legalStatus: string)

  /** A freshly allocated patent: every field empty. */
  const EmptyPatent := Patent("", "", "", "", "", "", "", "", "", "", "", "", "",
                              "", "", "", "", "", "", "", "", "", "", "", "")

  function Get(p: Patent, f: Field): string {
    match f
    case Title => p.title
    case Url => p.url
    case NaviCode => p.naviCode
    case Year => p.year
    case ApplicationType => p.applicationType
    case ApplicationDate => p.applicationDate
    case PublicationNo => p.publicationNo
    case ApplyPublicationNo => p.applyPublicationNo
    case AuthPublicationNo => p.authPublicationNo
    case MultiPublicationNo => p.multiPublicationNo
    case PublicationDate => p.publicationDate
    case AuthPublicationDate => p.authPublicationDate
    case Applicant => p.applicant
    case ApplicantAddress => p.applicantAddress
    case Inventors => p.inventors
    case ApplicationNo => p.applicationNo
    case AreaCode => p.areaCode
    case ClassificationNo => p.classificationNo
    case MainClassificationNo => p.mainClassificationNo
    case Agency => p.agency
    case Agent => p.agent
    case Page => p.page
    case Abstract => p.abstractText
    case Sovereignty => p.sovereignty
    case LegalStatus => p.legalStatus
  }

  function Set(p: Patent, f: Field, v: string): Patent {
    match f
    case Title => p.(title := v)
    case Url => p.(url := v)
    case NaviCode => p.(naviCode := v)
    case Year => p.(year := v)
    case ApplicationType => p.(applicationType := v)
    case ApplicationDate => p.(applicationDate := v)
    case PublicationNo => p.(publicationNo := v)
    case ApplyPublicationNo => p.(applyPublicationNo := v)
    case AuthPublicationNo => p.(authPublicationNo := v)
    case MultiPublicationNo => p.(multiPublicationNo := v)
    case PublicationDate => p.(publicationDate := v)
    case AuthPublicationDate => p.(authPublicationDate := v)
    case Applicant => p.(applicant := v)
    case ApplicantAddress => p.(applicantAddress := v)
    case Inventors => p.(inventors := v)
    case ApplicationNo => p.(applicationNo := v)
    case AreaCode => p.(areaCode := v)
    case ClassificationNo => p.(classificationNo := v)
    case MainClassificationNo => p.(mainClassificationNo := v)
    case Agency => p.(agency := v)
    case Agent => p.(agent := v)
    case Page => p.(page := v)
    case Abstract => p.(abstractText := v)
    case Sovereignty => p.(sovereignty := v)
    case LegalStatus => p.(legalStatus := v)
  }

  /** Setting a field changes that field and no other. */
  lemma GetSet(p: Patent, f: Field, v: string)
    ensures forall g :: Get(Set(p, f, v), g) == if g == f then v else Get(p, g)
  {
    match f
    case _ =>
  }

  /** A later write to the same field wins over an earlier one. */
  lemma SetSet(p: Patent, f: Field, v1: string, v2: string)
    ensures Set(Set(p, f, v1), f, v2) == Set(p, f, v2)
  {
    match f
    case _ =>
  }

  // ---------------------------------------------------------------------------
  // Row labels
  // ---------------------------------------------------------------------------

  /** The fields no page row can write. */
  const NonRowFields: set<Field> :=
    {Title, Url, NaviCode, Year, PublicationNo, Abstract, Sovereignty, LegalStatus}

  /**
   * The field a page label names, as the field switch picks it. Matching is
   * exact: every label carries a full-width colon except "代理人" and "页数",
   * which match only without it. No label names a field that is filled from
   * elsewhere on the page.
   */
  function FieldOfKey(key: string): (r: Option<Field>)
    ensures r.Some? ==> r.value !in NonRowFields
  {
    if key == "专利类型：" then Some(ApplicationType)
    else if key == "申请日：" then Some(ApplicationDate)
    else if key == "多次公布：" then Some(MultiPublicationNo)
    else if key == "申请人：" then Some(Applicant)
    else if key == "地址：" then Some(ApplicantAddress)
    else if key == "发明人：" then Some(Inventors)
    else if key == "申请（专利）号：" then Some(ApplicationNo)
    else if key == "申请公布号：" then Some(ApplyPublicationNo)
    else if key == "授权公布号：" then Some(AuthPublicationNo)
    else if key == "公开公告日：" then Some(PublicationDate)
    else if key == "授权公告日：" then Some(AuthPublicationDate)
    else if key == "国省代码：" then Some(AreaCode)
    else if key == "分类号：" then Some(ClassificationNo)
    else if key == "主分类号：" then Some(MainClassificationNo)
    else if key == "代理机构：" then Some(Agency)
    else if key == "代理人" then Some(Agent)
    else if key == "页数" then Some(Page)
    else None
  }

  /** The label a detail page prints in front of field f, if it has one. */
  function LabelOf(f: Field): Option<string> {
    match f
    case ApplicationType => Some("专利类型：")
    case ApplicationDate => Some("申请日：")
    case MultiPublicationNo => Some("多次公布：")
    case Applicant => Some("申请人：")
    case ApplicantAddress => Some("地址：")
    case Inventors => Some("发明人：")
    case ApplicationNo => Some("申请（专利）号：")
    case ApplyPublicationNo => Some("申请公布号：")
    case AuthPublicationNo => Some("授权公布号：")
    case PublicationDate => Some("公开公告日：")
    case AuthPublicationDate => Some("授权公告日：")
    case AreaCode => Some("国省代码：")
    case ClassificationNo => Some("分类号：")
    case MainClassificationNo => Some("主分类号：")
    case Agency => Some("代理机构：")
    case Agent => Some("代理人")
    case Page => Some("页数")
    case _ => None
  }

  /** Every label the switch recognises is the printed label of the field it names. */
  lemma RecognisedKeyIsLabel(key: string, f: Field)
    requires FieldOfKey(key) == Some(f)
    ensures LabelOf(f) == Some(key)
  {
  }

  /**
   * Every printed label is recognised, as the field it labels. With the lemma
   * above: a label maps to a field exactly when it is that field's label, so
   * each field is reached by one label only.
   */
  lemma LabelIsRecognised(key: string, f: Field)
    requires LabelOf(f) == Some(key)
    ensures FieldOfKey(key) == Some(f)
  {
    match f
    case _ =>
  }

  /** The colon rule, on the two labels without a colon and one of those with it. */
  lemma KeyMatchingIsExact()
    ensures FieldOfKey("代理人") == Some(Agent) && FieldOfKey("代理人：") == None
    ensures FieldOfKey("页数") == Some(Page) && FieldOfKey("页数：") == None
    ensures FieldOfKey("申请日：") == Some(ApplicationDate) && FieldOfKey("申请日") == None
  {
  }

  /**
   * One labelled row copied into the patent: the field the label names gets
   * value, every other field keeps what it held.
   */
  function FillRowFields(p: Patent, key: string, value: string): (r: Patent)
    ensures forall g :: Get(r, g) == if FieldOfKey(key) == Some(g) then value else Get(p, g)
  {
    match FieldOfKey(key)
    case Some(f) =>
      GetSet(p, f, value);
      Set(p, f, value)
    case None => p
  }

  /** An unrecognised label leaves the patent untouched (the switch has no default). */
  lemma FillIgnoresUnknownKey(p: Patent, key: string, value: string)
    requires FieldOfKey(key) == None
    ensures FillRowFields(p, key, value) == p
  {
  }

  /** Filling the same label twice keeps only the later value; with the same value it is idempotent. */
  lemma FillOverwrites(p: Patent, key: string, v1: string, v2: string)
    ensures FillRowFields(FillRowFields(p, key, v1), key, v2) == FillRowFields(p, key, v2)
    ensures FillRowFields(FillRowFields(p, key, v1), key, v1) == FillRowFields(p, key, v1)
  {
    match FieldOfKey(key)
    case Some(f) =>
      SetSet(p, f, v1, v2);
      SetSet(p, f, v1, v1);
    case None =>
  }

  // ---------------------------------------------------------------------------
  // Validity
  // ---------------------------------------------------------------------------

  /** The sixteen fields that count towards validity, in the order they are counted. */
  const ValidatedFields: seq<Field> :=
    [ApplicationType, ApplicationDate, ApplyPublicationNo, AuthPublicationNo,
     PublicationDate, AuthPublicationDate, Applicant, ApplicantAddress, Inventors,
     ApplicationNo, AreaCode, ClassificationNo, MainClassificationNo, Agency, Agent, Page]

  /** How many of the validated fields must be non-empty. */
  const MinFilledFields := 8

  function CountNonEmpty(vs: seq<string>): nat {
    if vs == [] then 0
    else CountNonEmpty(vs[..|vs| - 1]) + (if vs[|vs| - 1] != "" then 1 else 0)
  }

  function FieldValues(p: Patent, fs: seq<Field>): seq<string> {
    seq(|fs|, i requires 0 <= i < |fs| => Get(p, fs[i]))
  }

  predicate IsValid(p: Patent) {
    p.title != "" && CountNonEmpty(FieldValues(p, ValidatedFields)) >= MinFilledFields
  }

  /** The fields among fs that hold something in p. */
  function NonEmptyIn(p: Patent, fs: seq<Field>): set<Field> {
    set f | f in fs && Get(p, f) != ""
  }

  lemma NonEmptyInSnoc(p: Patent, fs: seq<Field>, x: Field)
    ensures NonEmptyIn(p, fs + [x]) == NonEmptyIn(p, fs) + (if Get(p, x) != "" then {x} else {})
  {
  }

  lemma FieldValuesSnoc(p: Patent, fs: seq<Field>, x: Field)
    ensures FieldValues(p, fs + [x]) == FieldValues(p, fs) + [Get(p, x)]
  {
  }

  /** Over distinct fields, counting the non-empty values counts the non-empty fields. */
  lemma {:induction false} CountDistinctFields(p: Patent, fs: seq<Field>)
    requires forall i, j :: 0 <= i < j < |fs| ==> fs[i] != fs[j]
    ensures CountNonEmpty(FieldValues(p, fs)) == |NonEmptyIn(p, fs)|
  {
    if fs != [] {
      var init, x := fs[..|fs| - 1], fs[|fs| - 1];
      assert fs == init + [x];
      CountDistinctFields(p, init);
      FieldValuesSnoc(p, init, x);
      NonEmptyInSnoc(p, init, x);
      assert (FieldValues(p, init) + [Get(p, x)])[..|init|] == FieldValues(p, init);
      assert x !in NonEmptyIn(p, init);
    }
  }

  /**
   * A patent is valid exactly when it has a title and at least eight of the
   * sixteen validated fields are non-empty; without a title it never is.
   */
  lemma ValidIff(p: Patent)
    ensures IsValid(p) <==> p.title != "" && |NonEmptyIn(p, ValidatedFields)| >= MinFilledFields
    ensures p.title == "" ==> !IsValid(p)
  {
    CountDistinctFields(p, ValidatedFields);
  }

  /** Fields other than the title and the validated ones never change validity. */
  lemma ValidIgnoresOtherFields(p: Patent, f: Field, v: string)
    requires f != Title && f !in ValidatedFields
    ensures IsValid(Set(p, f, v)) == IsValid(p)
  {
    GetSet(p, f, v);
    assert FieldValues(Set(p, f, v), ValidatedFields) == FieldValues(p, ValidatedFields);
  }

  lemma ValidatedValues(p: Patent)
    ensures FieldValues(p, ValidatedFields) ==
      [p.applicationType, p.applicationDate, p.applyPublicationNo,
       p.authPublicationNo, p.publicationDate, p.authPublicationDate,
       p.applicant, p.applicantAddress, p.inventors, p.applicationNo,
       p.areaCode, p.classificationNo, p.mainClassificationNo,
       p.agency, p.agent, p.page]
  {
  }

  /** Counts the non-empty validated fields of p; p itself is a value and is not changed. */
  method Validate(p: Patent) returns (ok: bool)
    ensures ok == IsValid(p)
  {
    if p.title == "" {
      return false;
    }
    var fields := [p.applicationType, p.applicationDate, p.applyPublicationNo,
                   p.authPublicationNo, p.publicationDate, p.authPublicationDate,
                   p.applicant, p.applicantAddress, p.inventors, p.applicationNo,
                   p.areaCode, p.classificationNo, p.mainClassificationNo,
                   p.agency, p.agent, p.page];
    ValidatedValues(p);
    var notEmptyCount := 0;
    for i := 0 to |fields|
      invariant notEmptyCount == CountNonEmpty(fields[..i])
    {
      assert fields[..i + 1][..i] == fields[..i];
      if fields[i] != "" {
        notEmptyCount := notEmptyCount + 1;
      }
    }
    assert fields[..|fields|] == fields;
    ok := notEmptyCount >= MinFilledFields;
  }
}
