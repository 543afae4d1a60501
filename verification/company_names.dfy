/** The branch-office code table of `CompanyNameEnum` (run/src/rules/CompanyEnum.py):
    fifteen upper-case member names, each with its display name, and `get_name`,
    which looks a code up by member name and falls back to the code itself. */
module CompanyNames {
  import Text

  /** Member name to display value, as the enum declares them. */
  const Members: map<string, string> := map[
    "DS_SJS" := "石景山",
    "DS_DX" := "大兴",
    "DS_MTG" := "门头沟",
    "DS_HR" := "怀柔",
    "DS_JY" := "缙阳",
    "DS_MY" := "檀州",
    "DS_LQ" := "良泉",
    "DS_TZ" := "通州",
    "DS_QB" := "清北",
    "DS_HD" := "海淀",
    "DS_CXD" := "长辛店",
    "DS_CY" := "朝阳",
    "DS_SQ" := "市区",
    "DS_FT" := "丰台",
    "DS_JC" := "稽查"
  ]

  /** The same table read backwards, display name to member name. */
  const Codes: map<string, string> := map[
    "石景山" := "DS_SJS",
    "大兴" := "DS_DX",
    "门头沟" := "DS_MTG",
    "怀柔" := "DS_HR",
    "缙阳" := "DS_JY",
    "檀州" := "DS_MY",
    "良泉" := "DS_LQ",
    "通州" := "DS_TZ",
    "清北" := "DS_QB",
    "海淀" := "DS_HD",
    "长辛店" := "DS_CXD",
    "朝阳" := "DS_CY",
    "市区" := "DS_SQ",
    "丰台" := "DS_FT",
    "稽查" := "DS_JC"
  ]

  /** Reading a member's display name back gives the member. */
  lemma CodesInvertMembers(code: string)
    requires code in Members
    ensures Members[code] in Codes && Codes[Members[code]] == code
  {
  }

  /** `CompanyNameEnum.get_name(code)`: `cls[code].value`, or `code` on the `KeyError`. */
  function GetName(code: string): (name: string)
    ensures code in Members ==> name in Members.Values
    ensures code !in Members ==> name == code
  {
    if code in Members then Members[code] else code
  }

  /** The table has fifteen members and all display values are distinct, so
      `get_name` is injective on the known codes. */
  lemma GetNameInjectiveOnMembers(a: string, b: string)
    requires a in Members && b in Members && a != b
    ensures GetName(a) != GetName(b)
  {
    CodesInvertMembers(a);
    CodesInvertMembers(b);
  }

  /** No display value is itself a member name, so a second lookup changes nothing. */
  lemma GetNameIdempotent(code: string)
    ensures GetName(GetName(code)) == GetName(code)
  {
    assert forall v :: v in Members.Values ==> v !in Members;
  }

  /** The lookup is by exact member name: a lower-case code is not found and comes
      back unchanged, while its upper-cased form finds the display name. */
  lemma GetNameCaseSensitive()
    ensures GetName("ds_sjs") == "ds_sjs"
    ensures GetName(Text.Upper("ds_sjs")) == "石景山"
    ensures GetName("unknown_code") == "unknown_code"
  {
    assert Text.Upper("ds_sjs") == "DS_SJS";
  }
}
