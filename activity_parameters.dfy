/** The activity parameter catalog: NASA POWER parameter codes with their
    descriptions, the parameter string curated for each activity, the aliases
    accepted for user-friendly input, and the two lookups over these tables. */
module ActivityParameters {
  import opened Wrappers
  import opened Text

  /** The keys of `PARAMETER_DEFINITIONS`: the NASA POWER codes the catalog knows. */
  function DefinedCodes(): set<string> {
    {"T2M", "T2M_MAX", "T2M_MIN", "RH2M", "PRECTOTCORR", "ALLSKY_KT",
     "ALLSKY_SFC_SW_DWN", "WS2M", "WS10M", "WD10M", "EVLAND", "GWETROOT"}
  }

  /** The entry of `PARAMETER_DEFINITIONS` for a known code. */
  function Definition(code: string): string
    requires code in DefinedCodes()
  {
    match code
    case "T2M" => "Air temperature at 2 meters above the surface (°C)"
    case "T2M_MAX" => "Maximum daily air temperature at 2 meters (°C)"
    case "T2M_MIN" => "Minimum daily air temperature at 2 meters (°C)"
    case "RH2M" => "Relative humidity at 2 meters (%)"
    case "PRECTOTCORR" => "Corrected total daily precipitation (mm/day)"
    case "ALLSKY_KT" => "Clearness index (ratio of actual to clear-sky radiation, 0–1)"
    case "ALLSKY_SFC_SW_DWN" => "All-sky surface shortwave downward irradiance (W/m²)"
    case "WS2M" => "Wind speed at 2 meters above the surface (m/s)"
    case "WS10M" => "Wind speed at 10 meters above the surface (m/s)"
    case "WD10M" => "Wind direction at 10 meters above the surface (degrees 0–360)"
    case "EVLAND" => "Land surface evapotranspiration (mm/day)"
    case "GWETROOT" => "Root-zone soil wetness (fraction of saturation 0–1)"
  }

  /** `PARAMETER_DEFINITIONS`: code -> human-readable description. */
  function ParameterDefinitions(): map<string, string> {
    map code | code in DefinedCodes() :: Definition(code)
  }

  /** The keys of `ACTIVITY_PARAMS`. */
  function Activities(): set<string> {
    {"camping", "beach", "running", "boating", "photography", "agriculture",
     "aviation", "outdoor_wedding"}
  }

  /** The codes of an activity's parameter string, in the string's order. */
  function ActivityCodes(activity: string): seq<string>
    requires activity in Activities()
  {
    match activity
    // Outdoor recreation
    case "camping" => ["T2M", "T2M_MAX", "T2M_MIN", "RH2M", "PRECTOTCORR", "ALLSKY_KT", "WS2M"]
    case "beach" => ["T2M_MAX", "ALLSKY_SFC_SW_DWN", "ALLSKY_KT", "WS2M", "RH2M"]
    case "running" => ["T2M", "T2M_MAX", "RH2M", "WS2M", "PRECTOTCORR"]
    // Water-based activities
    case "boating" => ["PRECTOTCORR", "WS10M", "WD10M", "T2M", "RH2M", "ALLSKY_KT"]
    // Visual / observation activities
    case "photography" => ["ALLSKY_KT", "ALLSKY_SFC_SW_DWN", "T2M", "RH2M", "PRECTOTCORR"]
    // Environmental & occupational
    case "agriculture" => ["PRECTOTCORR", "T2M", "RH2M", "ALLSKY_SFC_SW_DWN", "EVLAND", "GWETROOT"]
    case "aviation" => ["WS10M", "WD10M", "PRECTOTCORR", "ALLSKY_KT", "T2M"]
    // Events & gatherings
    case "outdoor_wedding" => ["PRECTOTCORR", "ALLSKY_KT", "ALLSKY_SFC_SW_DWN", "T2M_MAX", "RH2M", "WS2M"]
  }

  /** `ACTIVITY_PARAMS`: activity -> comma-separated NASA POWER parameter
      string, the comma-join of its codes; for instance
      "camping" -> "T2M,T2M_MAX,T2M_MIN,RH2M,PRECTOTCORR,ALLSKY_KT,WS2M". */
  function ActivityParams(): map<string, string> {
    map activity | activity in Activities() :: Join(ActivityCodes(activity), ',')
  }

  /** `ACTIVITY_ALIASES`: alias -> canonical activity. */
  function ActivityAliases(): map<string, string> {
    map[
      "hiking" := "camping",
      "fishing" := "boating",
      "sailing" := "boating",
      "stargazing" := "photography",
      "gardening" := "agriculture",
      "drone" := "aviation",
      "wedding" := "outdoor_wedding",
      "party" := "outdoor_wedding",
      "reception" := "outdoor_wedding"
    ]
  }

  const UnknownParameter := "Unknown parameter code"

  /** `activity.lower().strip()`. */
  function Normalize(activity: string): string {
    Strip(Lower(activity))
  }

  /** What `Normalize` produces: no upper-case letter, no whitespace at the ends. */
  predicate IsNormalized(s: string) {
    NoUpper(s) && (|s| > 0 ==> !IsSpace(s[0]) && !IsSpace(s[|s| - 1]))
  }

  /** `get_parameters_for_activity`: normalise, follow at most one alias, then
      look the key up in `ActivityParams()`; `None` when it is not there. */
  function GetParametersForActivity(activity: string): (r: Option<string>)
    ensures r.Some? ==> r.value in ActivityParams().Values
  {
    var key := Normalize(activity);
    var key := if key in ActivityAliases() then ActivityAliases()[key] else key;
    if key in ActivityParams() then Some(ActivityParams()[key]) else None
  }

  /** `describe_parameter`: the table entry for a known code, otherwise the
      "unknown" placeholder; the code is used as given, without normalisation. */
  function DescribeParameter(code: string): (r: string)
    ensures code in ParameterDefinitions() ==> r == ParameterDefinitions()[code]
    ensures code !in ParameterDefinitions() ==> r == UnknownParameter
  {
    if code in ParameterDefinitions() then ParameterDefinitions()[code] else UnknownParameter
  }

  // ---------------------------------------------------------------------------
  // Normalisation
  // ---------------------------------------------------------------------------

  /** `Normalize` always yields a normalised string, and leaves one unchanged. */
  lemma NormalizeSpec(s: string)
    ensures IsNormalized(Normalize(s))
    ensures IsNormalized(s) ==> Normalize(s) == s
  {
    LowerFixpoint(s);
    StripNoUpper(Lower(s));
    if IsNormalized(s) {
      StripFixpoint(s);
    }
  }

  /** Normalising twice is normalising once. */
  lemma NormalizeIdempotent(s: string)
    ensures Normalize(Normalize(s)) == Normalize(s)
  {
    NormalizeSpec(s);
    NormalizeSpec(Normalize(s));
  }

  /** The lookup ignores case and surrounding whitespace: it gives the same
      answer for `s` as for its normalised form. */
  lemma LookupIgnoresCaseAndWhitespace(s: string)
    ensures GetParametersForActivity(s) == GetParametersForActivity(Normalize(s))
  {
    NormalizeIdempotent(s);
  }

  // ---------------------------------------------------------------------------
  // Invariants of the tables
  // ---------------------------------------------------------------------------

  lemma AliasKeys()
    ensures ActivityAliases().Keys == {"hiking", "fishing", "sailing", "stargazing",
                                       "gardening", "drone", "wedding", "party", "reception"}
  {
  }

  lemma ActivityKeys()
    ensures ActivityParams().Keys == Activities()
  {
  }

  lemma AliasTargets()
    ensures ActivityAliases().Values == {"camping", "boating", "photography", "agriculture",
                                         "aviation", "outdoor_wedding"}
  {
    var m := ActivityAliases();
    assert m["hiking"] == "camping";
    assert m["fishing"] == "boating";
    assert m["stargazing"] == "photography";
    assert m["gardening"] == "agriculture";
    assert m["drone"] == "aviation";
    assert m["wedding"] == "outdoor_wedding";
  }

  /** The characters the table keys are written in. */
  predicate IsKeyChar(c: char) {
    'a' <= c <= 'z' || c == '_'
  }

  /** A string of key characters is already normalised. */
  lemma KeyCharsNormalized(s: string)
    requires forall c | c in s :: IsKeyChar(c)
    ensures IsNormalized(s)
  {
    if |s| > 0 {
      assert s[0] in s && s[|s| - 1] in s;
    }
  }

  /** Every alias key is already normalised, so each one is reachable by
      typing it as it stands. */
  lemma AliasKeysNormalized()
    ensures forall a | a in ActivityAliases() :: IsNormalized(a)
  {
    AliasKeys();
    forall a | a in ActivityAliases() ensures IsNormalized(a) {
      assert forall c | c in a :: IsKeyChar(c);
      KeyCharsNormalized(a);
    }
  }

  /** Every activity key is already normalised. */
  lemma ActivityKeysNormalized()
    ensures forall a | a in ActivityParams() :: IsNormalized(a)
  {
    forall a | a in Activities() ensures IsNormalized(a) {
      assert forall c | c in a :: IsKeyChar(c);
      KeyCharsNormalized(a);
    }
  }

  /** Alias keys and activity keys are disjoint, so an alias never shadows an
      activity (with `ActivityKeys`, the keys of `ActivityParams()`). */
  lemma AliasesDisjoint()
    ensures ActivityAliases().Keys !! Activities()
  {
    AliasKeys();
  }

  /** Alias indirection is a single level: every alias names an activity,
      never another alias. */
  lemma AliasesSingleLevel()
    ensures forall a | a in ActivityAliases() :: ActivityAliases()[a] in ActivityParams()
    ensures forall a | a in ActivityAliases() :: ActivityAliases()[a] !in ActivityAliases()
  {
    AliasKeys();
    AliasTargets();
    assert ActivityAliases().Values <= Activities();
    assert ActivityAliases().Values !! ActivityAliases().Keys;
    forall a | a in ActivityAliases() ensures ActivityAliases()[a] in ActivityAliases().Values {
    }
  }

  /** The codes of an activity's parameter string, as `str.split(",")`
      yields them. */
  function ParameterCodes(activity: string): seq<string>
    requires activity in ActivityParams()
  {
    Split(ActivityParams()[activity], ',')
  }

  /** The curated codes of each activity are all defined and free of commas. */
  lemma ActivityCodesDefined(activity: string)
    requires activity in Activities()
    ensures forall code | code in ActivityCodes(activity) :: code in DefinedCodes() && ',' !in code
  {
    DefinedCodesHaveNoComma();
    assert forall code | code in ActivityCodes(activity) :: code in DefinedCodes();
  }

  /** No parameter code contains the separator of the parameter strings. */
  lemma DefinedCodesHaveNoComma()
    ensures forall code | code in DefinedCodes() :: ',' !in code
  {
  }

  /** Every comma-separated code of every activity's parameter string is a key
      of `ParameterDefinitions()`; the codes are exactly the curated list. */
  lemma ParameterCodesDefined(activity: string)
    requires activity in ActivityParams()
    ensures ParameterCodes(activity) == ActivityCodes(activity)
    ensures forall code | code in ParameterCodes(activity) :: code in ParameterDefinitions()
  {
    ActivityCodesDefined(activity);
    SplitJoin(ActivityCodes(activity), ',');
  }

  // ---------------------------------------------------------------------------
  // Properties of the lookup
  // ---------------------------------------------------------------------------

  /** A canonical activity key, in any case and with any surrounding
      whitespace, returns its own parameter string unchanged. */
  lemma CanonicalLookup(activity: string)
    requires Normalize(activity) in ActivityParams()
    ensures GetParametersForActivity(activity) == Some(ActivityParams()[Normalize(activity)])
  {
    AliasesDisjoint();
    ActivityKeys();
  }

  /** An alias returns exactly the parameter string of its canonical activity. */
  lemma AliasLookup(activity: string)
    requires Normalize(activity) in ActivityAliases()
    ensures GetParametersForActivity(activity)
         == GetParametersForActivity(ActivityAliases()[Normalize(activity)])
    ensures GetParametersForActivity(activity)
         == Some(ActivityParams()[ActivityAliases()[Normalize(activity)]])
  {
    AliasesSingleLevel();
    ActivityKeysNormalized();
    var target := ActivityAliases()[Normalize(activity)];
    NormalizeSpec(target);
    CanonicalLookup(target);
  }

  /** The lookup finds something exactly when the normalised input is an alias
      or an activity; otherwise it returns `None`. */
  lemma LookupDefinedExactly(activity: string)
    ensures GetParametersForActivity(activity).None?
        <==> Normalize(activity) !in ActivityAliases() && Normalize(activity) !in ActivityParams()
  {
    AliasesSingleLevel();
  }

  lemma HikingAliasesCamping()
    ensures "hiking" in ActivityAliases() && ActivityAliases()["hiking"] == "camping"
  {
  }

  /** The two sample keys "hiking" and "camping" are already normalised.
      The keys arrive as a parameter pinned by `requires`, not written into
      the lemma, which keeps the string literals out of the solver's way. */
  lemma SampleKeysNormalized(s: string)
    requires s in {"hiking", "camping"}
    ensures IsNormalized(s)
  {
    assert forall c | c in s :: IsKeyChar(c);
    KeyCharsNormalized(s);
  }

  /** "hiking" gives the same result as "camping". */
  lemma HikingIsCamping()
    ensures GetParametersForActivity("hiking") == GetParametersForActivity("camping")
    ensures GetParametersForActivity("camping")
         == Some(Join(["T2M", "T2M_MAX", "T2M_MIN", "RH2M", "PRECTOTCORR", "ALLSKY_KT", "WS2M"], ','))
  {
    HikingAliasesCamping();
    SampleKeysNormalized("hiking");
    SampleKeysNormalized("camping");
    NormalizeSpec("hiking");
    NormalizeSpec("camping");
    AliasLookup("hiking");
    CanonicalLookup("camping");
  }

  /** Padding and capitals do not matter: " Hiking\t" normalises to "hiking".
      The input is a parameter pinned by `requires` to keep the proof cheap. */
  lemma PaddedHikingNormalizes(input: string)
    requires input == " Hiking\t"
    ensures Normalize(input) == "hiking"
  {
    var lowered := Lower(input);
    assert lowered == " hiking\t";
    TrimStartDropsOne(lowered);
    var t := lowered[1..];
    assert t == "hiking\t";
    TrimEndDropsOne(t);
    assert t[..|t| - 1] == "hiking";
  }

  /** Whatever normalises to "hiking" gives the result of "camping". */
  lemma HikingInAnyFormIsCamping(input: string)
    requires Normalize(input) == "hiking"
    ensures GetParametersForActivity(input) == GetParametersForActivity("camping")
  {
    LookupIgnoresCaseAndWhitespace(input);
    HikingIsCamping();
  }

  // ---------------------------------------------------------------------------
  // Properties of the description lookup
  // ---------------------------------------------------------------------------

  /** The placeholder is returned exactly for unknown codes: it is not the
      description of any code. */
  lemma DescribeUnknownExactly(code: string)
    ensures DescribeParameter(code) == UnknownParameter <==> code !in ParameterDefinitions()
  {
  }

  /** A known code is described by its own table entry. */
  lemma DescribeKnown()
    ensures DescribeParameter("T2M") == "Air temperature at 2 meters above the surface (°C)"
    ensures DescribeParameter("RH2M") == "Relative humidity at 2 meters (%)"
  {
  }

  /** The description lookup is case-sensitive and does not strip: "t2m" and
      " T2M" are unknown although "T2M" is defined. */
  lemma DescribeIsCaseSensitive()
    ensures "T2M" in ParameterDefinitions()
    ensures DescribeParameter("t2m") == UnknownParameter
    ensures DescribeParameter(" T2M") == UnknownParameter
  {
    assert "t2m" !in DefinedCodes() && " T2M" !in DefinedCodes();
  }
}
