/** The usage-CSV column vocabulary: the six canonical column names and the
    table of alternative spellings that resolve to them. Both are constants;
    the lemmas state the shape the rest of the code relies on. */
module UsageHeaders {
  import opened Text

  /** The canonical (internal) column names. */
  datatype UsageHeader = Timestamp | User | Model | UseQuota | LimitMonthlyQuota | ExceedsMonthlyQuota
  {
    /** The name as it is spelt in a canonical CSV header. */
    function Name(): string
    {
      match this
      case Timestamp => "timestamp"
      case User => "user"
      case Model => "model"
      case UseQuota => "useQuota"
      case LimitMonthlyQuota => "limitMonthlyQuota"
      case ExceedsMonthlyQuota => "exceedsMonthlyQuota"
    }
  }

  const RequiredHeaders: seq<UsageHeader> :=
    [Timestamp, User, Model, UseQuota, LimitMonthlyQuota, ExceedsMonthlyQuota]

  /** Alternative spelling, matched in lower case, to canonical name. */
  const HeaderAliases: map<string, UsageHeader> := map[
    "timestamp" := Timestamp, "time" := Timestamp, "date" := Timestamp, "datetime" := Timestamp,
    "user" := User, "username" := User, "login" := User, "user_login" := User,
    "model" := Model, "model_name" := Model,
    "usequota" := UseQuota, "usage" := UseQuota, "used" := UseQuota, "used_quota" := UseQuota,
    "credits_used" := UseQuota,
    "limitmonthlyquota" := LimitMonthlyQuota, "monthly_quota" := LimitMonthlyQuota,
    "monthly_limit" := LimitMonthlyQuota, "quota_limit" := LimitMonthlyQuota,
    "exceedsmonthlyquota" := ExceedsMonthlyQuota, "exceeded" := ExceedsMonthlyQuota,
    "exceeded_monthly_quota" := ExceedsMonthlyQuota, "is_exceeded" := ExceedsMonthlyQuota
  ]

  function RequiredNames(): (names: seq<string>)
    ensures |names| == |RequiredHeaders|
    ensures forall i :: 0 <= i < |names| ==> names[i] == RequiredHeaders[i].Name()
  {
    seq(|RequiredHeaders|, i requires 0 <= i < |RequiredHeaders| => RequiredHeaders[i].Name())
  }

  /** Six distinct headers, every canonical header among them, in the fixed
      order timestamp, user, model, useQuota, limitMonthlyQuota,
      exceedsMonthlyQuota. */
  lemma RequiredHeadersShape()
    ensures |RequiredHeaders| == 6
    ensures forall i, j :: 0 <= i < j < |RequiredHeaders| ==> RequiredHeaders[i] != RequiredHeaders[j]
    ensures forall h: UsageHeader :: h in RequiredHeaders
    ensures RequiredNames() ==
      ["timestamp", "user", "model", "useQuota", "limitMonthlyQuota", "exceedsMonthlyQuota"]
  {
    forall h: UsageHeader ensures h in RequiredHeaders {
      match h
      case Timestamp => assert RequiredHeaders[0] == h;
      case User => assert RequiredHeaders[1] == h;
      case Model => assert RequiredHeaders[2] == h;
      case UseQuota => assert RequiredHeaders[3] == h;
      case LimitMonthlyQuota => assert RequiredHeaders[4] == h;
      case ExceedsMonthlyQuota => assert RequiredHeaders[5] == h;
    }
  }

  /** Distinct headers have distinct names. */
  lemma NamesDistinct(h: UsageHeader, g: UsageHeader)
    ensures h.Name() == g.Name() ==> h == g
  {
  }

  /** The table only resolves to required headers. */
  lemma AliasTargetsRequired()
    ensures forall a :: a in HeaderAliases ==> HeaderAliases[a] in RequiredHeaders
  {
  }

  /** Every key is written in lower case, so looking up a lowered column name
      can find it. */
  lemma AliasKeysLowerCase()
    ensures forall a :: a in HeaderAliases ==> IsLowerCase(a) && ToLower(a) == a
  {
    TimestampSpellingsLowerCase();
    UserSpellingsLowerCase();
    ModelSpellingsLowerCase();
    UseQuotaSpellingsLowerCase();
    LimitMonthlyQuotaSpellingsLowerCase();
    ExceedsMonthlyQuotaSpellingsLowerCase();
    forall a | a in HeaderAliases ensures ToLower(a) == a {
      LowerCaseFixed(a);
    }
  }

  /** The spellings, group by group, have no capital letter. */
  lemma TimestampSpellingsLowerCase()
    ensures IsLowerCase("timestamp") && IsLowerCase("time") && IsLowerCase("date") && IsLowerCase("datetime")
  {
  }

  lemma UserSpellingsLowerCase()
    ensures IsLowerCase("user") && IsLowerCase("username") && IsLowerCase("login") && IsLowerCase("user_login")
  {
  }

  lemma ModelSpellingsLowerCase()
    ensures IsLowerCase("model") && IsLowerCase("model_name")
  {
  }

  lemma UseQuotaSpellingsLowerCase()
    ensures IsLowerCase("usequota") && IsLowerCase("usage") && IsLowerCase("used") && IsLowerCase("used_quota") && IsLowerCase("credits_used")
  {
  }

  lemma LimitMonthlyQuotaSpellingsLowerCase()
    ensures IsLowerCase("limitmonthlyquota") && IsLowerCase("monthly_quota") && IsLowerCase("monthly_limit") && IsLowerCase("quota_limit")
  {
  }

  lemma ExceedsMonthlyQuotaSpellingsLowerCase()
    ensures IsLowerCase("exceedsmonthlyquota") && IsLowerCase("exceeded") && IsLowerCase("exceeded_monthly_quota") && IsLowerCase("is_exceeded")
  {
  }

  /** Every canonical header is reached by its own name, lowered. */
  lemma OwnNameResolves(h: UsageHeader)
    ensures ToLower(h.Name()) in HeaderAliases && HeaderAliases[ToLower(h.Name())] == h
  {
    LowerNamesPlain();
    LowerNamesCamel();
  }

  /** The canonical names, lowered. */
  lemma LowerNamesPlain()
    ensures ToLower("timestamp") == "timestamp" && ToLower("user") == "user" && ToLower("model") == "model"
  {
  }

  lemma LowerNamesCamel()
    ensures ToLower("useQuota") == "usequota"
    ensures ToLower("limitMonthlyQuota") == "limitmonthlyquota"
    ensures ToLower("exceedsMonthlyQuota") == "exceedsmonthlyquota"
  {
  }

  /** The table is many-to-one: four distinct spellings name the timestamp. */
  lemma AliasesManyToOne()
    ensures "time" in HeaderAliases && "date" in HeaderAliases && "datetime" in HeaderAliases
    ensures HeaderAliases["time"] == HeaderAliases["date"] == HeaderAliases["datetime"]
         == HeaderAliases["timestamp"] == Timestamp
  {
  }
}
