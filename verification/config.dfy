/** `ConfigHandler.validate_config` (cloudflare_analytics.py:29-45): the decoded
    configuration must hold a `cloudflare` section with `api_token` and `zone_id`
    and a `google_sheets` section with `credentials_file`, `spreadsheet_id` and
    `sheet_name`, each present and truthy. The first missing section, missing field
    or empty value, in that declared order, is what the raised error names. */
module Config {
  import opened Outcomes

  /** A value as `json.load` decodes it. */
  datatype Json =
    | Null
    | Bool(b: bool)
    | Num(n: int)
    | Str(s: string)
    | Arr(items: seq<Json>)
    | Obj(fields: map<string, Json>)

  /** Python's truth value of a decoded value: `not value` is the negation. */
  predicate Truthy(v: Json)
  {
    match v
    case Null => false
    case Bool(b) => b
    case Num(n) => n != 0
    case Str(s) => |s| > 0
    case Arr(items) => |items| > 0
    case Obj(fields) => |fields| > 0
  }

  /** The required sections and their fields, in the order they are checked. */
  const Required: seq<(string, seq<string>)> := [
    ("cloudflare", ["api_token", "zone_id"]),
    ("google_sheets", ["credentials_file", "spreadsheet_id", "sheet_name"])
  ]

  /** The reason validation raised. `NotAnObject` is the TypeError Python raises
      when a section is not a JSON object and cannot be indexed by a field name. */
  datatype ConfigError =
    | MissingSection(section: string)
    | MissingField(section: string, field: string)
    | EmptyValue(section: string, field: string)
    | NotAnObject(section: string)

  /** Python's `part in t` on strings: `part` occurs somewhere in `t`. */
  predicate ContainsText(t: string, part: string)
  {
    if |part| > |t| then false
    else if t[..|part|] == part then true
    else |t| > 0 && ContainsText(t[1..], part)
  }

  /** What `field in section` followed by `section[field]` does to a section value. */
  datatype Lookup = Found(value: Json) | Absent | Unusable

  /** For an object, key membership. For a string, `in` is a substring test and a
      list tests membership, and a hit then fails to index; any other value cannot
      be searched at all. */
  function LookupField(section: Json, field: string): (r: Lookup)
    ensures r.Found? ==> section.Obj? && field in section.fields && r.value == section.fields[field]
    ensures section.Obj? ==> (r.Found? <==> field in section.fields)
  {
    match section
    case Obj(fields) => if field in fields then Found(fields[field]) else Absent
    case Str(t) => if ContainsText(t, field) then Unusable else Absent
    case Arr(items) => if Str(field) in items then Unusable else Absent
    case _ => Unusable
  }

  predicate FieldOk(section: Json, field: string)
  {
    LookupField(section, field).Found? && Truthy(LookupField(section, field).value)
  }

  /** The error the field check of `field` raises when it does not pass. */
  function FieldError(name: string, section: Json, field: string): ConfigError
    requires !FieldOk(section, field)
  {
    match LookupField(section, field)
    case Absent => MissingField(name, field)
    case Unusable => NotAnObject(name)
    case Found(_) => EmptyValue(name, field)
  }

  /** The inner loop over the fields of one section. */
  function CheckFields(name: string, section: Json, fields: seq<string>): (r: Outcome<ConfigError>)
    ensures r.Pass? <==> forall i | 0 <= i < |fields| :: FieldOk(section, fields[i])
    ensures r.Fail? ==> exists i | 0 <= i < |fields| ::
      && !FieldOk(section, fields[i])
      && (forall k | 0 <= k < i :: FieldOk(section, fields[k]))
      && r.error == FieldError(name, section, fields[i])
  {
    if |fields| == 0 then Pass
    else if !FieldOk(section, fields[0]) then Fail(FieldError(name, section, fields[0]))
    else
      var rest := CheckFields(name, section, fields[1..]);
      assert forall i | 1 <= i < |fields| :: fields[i] == fields[1..][i - 1];
      if rest.Fail? then
        ghost var j :| 0 <= j < |fields[1..]| && !FieldOk(section, fields[1..][j])
          && (forall k | 0 <= k < j :: FieldOk(section, fields[1..][k]))
          && rest.error == FieldError(name, section, fields[1..][j]);
        assert fields[j + 1] == fields[1..][j];
        rest
      else
        rest
  }

  predicate SectionOk(config: map<string, Json>, name: string, fields: seq<string>)
  {
    name in config && forall i | 0 <= i < |fields| :: FieldOk(config[name], fields[i])
  }

  /** The outer loop over the required sections. */
  function CheckSections(config: map<string, Json>, sections: seq<(string, seq<string>)>): (r: Outcome<ConfigError>)
    ensures r.Pass? <==> forall i | 0 <= i < |sections| :: SectionOk(config, sections[i].0, sections[i].1)
    ensures r.Fail? ==> exists i | 0 <= i < |sections| ::
      && !SectionOk(config, sections[i].0, sections[i].1)
      && (forall k | 0 <= k < i :: SectionOk(config, sections[k].0, sections[k].1))
      && r.error.section == sections[i].0
      && (r.error.MissingSection? <==> sections[i].0 !in config)
      && (sections[i].0 in config ==>
            r.error == CheckFields(sections[i].0, config[sections[i].0], sections[i].1).error)
  {
    if |sections| == 0 then Pass
    else
      var (name, fields) := sections[0];
      assert forall i | 1 <= i < |sections| :: sections[i] == sections[1..][i - 1];
      if name !in config then Fail(MissingSection(name))
      else
        var here := CheckFields(name, config[name], fields);
        if here.Fail? then
          assert !SectionOk(config, sections[0].0, sections[0].1);
          here
        else
          var rest := CheckSections(config, sections[1..]);
          if rest.Fail? then
            ghost var j :| 0 <= j < |sections[1..]|
              && !SectionOk(config, sections[1..][j].0, sections[1..][j].1)
              && (forall k | 0 <= k < j :: SectionOk(config, sections[1..][k].0, sections[1..][k].1))
              && rest.error.section == sections[1..][j].0
              && (rest.error.MissingSection? <==> sections[1..][j].0 !in config)
              && (sections[1..][j].0 in config ==>
                    rest.error == CheckFields(sections[1..][j].0, config[sections[1..][j].0], sections[1..][j].1).error);
            assert sections[j + 1] == sections[1..][j];
            rest
          else
            rest
  }

  /** `validate_config(config)`: Pass when it returns, Fail with the reason it raised.
      The `cloudflare` section is checked before `google_sheets`, so an error about
      the latter means the former is complete. */
  function Validate(config: map<string, Json>): (r: Outcome<ConfigError>)
    ensures r.Pass? <==> SectionOk(config, "cloudflare", Required[0].1) && SectionOk(config, "google_sheets", Required[1].1)
    ensures r.Fail? ==> r.error.section == "cloudflare" || r.error.section == "google_sheets"
    ensures r.Fail? && r.error.section == "google_sheets" ==> SectionOk(config, "cloudflare", Required[0].1)
  {
    CheckSections(config, Required)
  }

  /** Truthy value under `key` of section `name`. */
  predicate Filled(config: map<string, Json>, name: string, key: string)
  {
    && name in config
    && config[name].Obj?
    && key in config[name].fields
    && Truthy(config[name].fields[key])
  }

  lemma FieldOkIsFilled(config: map<string, Json>, name: string, key: string)
    requires name in config
    ensures FieldOk(config[name], key) <==> Filled(config, name, key)
  {
  }

  /** Validation passes exactly when all five settings are present and non-empty. */
  lemma ValidateIff(config: map<string, Json>)
    ensures Validate(config).Pass? <==>
      && Filled(config, "cloudflare", "api_token")
      && Filled(config, "cloudflare", "zone_id")
      && Filled(config, "google_sheets", "credentials_file")
      && Filled(config, "google_sheets", "spreadsheet_id")
      && Filled(config, "google_sheets", "sheet_name")
  {
    var cf, gs := Required[0], Required[1];
    assert cf == ("cloudflare", ["api_token", "zone_id"]);
    assert gs == ("google_sheets", ["credentials_file", "spreadsheet_id", "sheet_name"]);
    assert SectionOk(config, cf.0, cf.1) <==>
      Filled(config, "cloudflare", "api_token") && Filled(config, "cloudflare", "zone_id")
    by {
      if "cloudflare" in config {
        FieldOkIsFilled(config, "cloudflare", "api_token");
        FieldOkIsFilled(config, "cloudflare", "zone_id");
        assert cf.1[0] == "api_token" && cf.1[1] == "zone_id";
      }
    }
    assert SectionOk(config, gs.0, gs.1) <==>
      && Filled(config, "google_sheets", "credentials_file")
      && Filled(config, "google_sheets", "spreadsheet_id")
      && Filled(config, "google_sheets", "sheet_name")
    by {
      if "google_sheets" in config {
        FieldOkIsFilled(config, "google_sheets", "credentials_file");
        FieldOkIsFilled(config, "google_sheets", "spreadsheet_id");
        FieldOkIsFilled(config, "google_sheets", "sheet_name");
        assert gs.1[0] == "credentials_file" && gs.1[1] == "spreadsheet_id" && gs.1[2] == "sheet_name";
      }
    }
    assert Validate(config).Pass? <==> SectionOk(config, cf.0, cf.1) && SectionOk(config, gs.0, gs.1);
  }

  /** A configuration whose `cloudflare` section is complete but whose
      `google_sheets` section is absent fails on that section. */
  lemma MissingSheetsSection(token: string, zone: string)
    requires |token| > 0 && |zone| > 0
    ensures Validate(map["cloudflare" := Obj(map["api_token" := Str(token), "zone_id" := Str(zone)])])
      == Fail(MissingSection("google_sheets"))
  {
    var config := map["cloudflare" := Obj(map["api_token" := Str(token), "zone_id" := Str(zone)])];
    assert FieldOk(config["cloudflare"], "api_token") && FieldOk(config["cloudflare"], "zone_id");
    assert CheckFields("cloudflare", config["cloudflare"], Required[0].1).Pass?;
    assert Required[1..] == [("google_sheets", ["credentials_file", "spreadsheet_id", "sheet_name"])];
    assert CheckSections(config, Required[1..]) == Fail(MissingSection("google_sheets"));
  }
}
