/**
 * The `Case` model. Both of its before-validators are registered on `name`, so `name` is
 * stripped and lower-cased while `description` is taken as given, untrimmed.
 */
module CaseModel {
  import opened Wrappers
  import opened Documents
  import opened StringUtils
  import opened ErrorModel

  /** `parse_name`. */
  function ParseName(name: string): string
  {
    Lower(Strip(name))
  }

  /** `parse_description`, which is registered on `name` too. */
  function ParseDescription(name: string): string
  {
    Strip(name)
  }

  /** The validated `name`: before-validators run last-registered first. */
  function ValidatedName(raw: string): string
  {
    ParseName(ParseDescription(raw))
  }

  /** The order of the two validators on `name` does not matter: either way it is `lower(strip(raw))`. */
  lemma ValidatorOrderIrrelevant(raw: string)
    ensures ValidatedName(raw) == ParseDescription(ParseName(raw))
    ensures ValidatedName(raw) == Lower(Strip(raw))
  {
    StripIdempotent(raw);
    StripLower(Strip(raw));
  }

  function NameField(req: Json): Result<string, Issue>
  {
    if "name" in req then Success(ValidatedName(req["name"])) else Failure(FieldRequired("name"))
  }

  function DescriptionField(req: Json): Result<string, Issue>
  {
    if "description" in req then Success(req["description"]) else Failure(FieldRequired("description"))
  }

  /**
   * `Case(**data).model_dump()`: one issue per missing field, in field order; on success the
   * serialised name and the description exactly as given.
   */
  function CaseDump(req: Json): (r: Result<Doc, seq<Issue>>)
    ensures r.Success? <==> "name" in req && "description" in req
    ensures r.Failure? ==> (r.error ==
      (if "name" in req then [] else [FieldRequired("name")])
      + (if "description" in req then [] else [FieldRequired("description")]))
  {
    var name := NameField(req);
    var description := DescriptionField(req);
    if name.Failure? || description.Failure? then
      Failure((if name.Failure? then [name.error] else []) + (if description.Failure? then [description.error] else []))
    else Success(map["name" := Str(SerializeName(name.value)), "description" := Str(description.value)])
  }

  /**
   * The dumped case: `serialize_name` of the raw name and the raw description, untrimmed. So
   * raw names that differ only in letter case or in surrounding whitespace dump alike.
   */
  lemma CaseDumpContents(req: Json)
    requires CaseDump(req).Success?
    ensures CaseDump(req).value.Keys == {"name", "description"}
    ensures CaseDump(req).value["name"] == Str(SerializeName(req["name"]))
    ensures CaseDump(req).value["description"] == Str(req["description"])
  {
    CaseKeyIsSerializedName(req["name"]);
  }

  /** The name a case is stored under: `serialize_name(lower(strip(raw)))`. */
  function CaseKey(raw: string): string
  {
    SerializeName(ValidatedName(raw))
  }

  /** The key is `serialize_name` of the raw name itself. */
  lemma CaseKeyIsSerializedName(raw: string)
    ensures CaseKey(raw) == SerializeName(raw)
  {
    ValidatorOrderIrrelevant(raw);
    SerializeNameIgnoresCase(Strip(raw));
    StripIdempotent(raw);
  }

  /** Raw names that differ only in letter case or in surrounding whitespace share one key. */
  lemma CaseKeyNormalises(pre: string, raw: string, post: string)
    requires AllSpace(pre) && AllSpace(post)
    ensures CaseKey(pre + raw + post) == CaseKey(raw)
    ensures CaseKey(Lower(raw)) == CaseKey(raw)
  {
    CaseKeyIsSerializedName(raw);
    CaseKeyIsSerializedName(pre + raw + post);
    CaseKeyIsSerializedName(Lower(raw));
    SerializeNameIgnoresOuterSpace(pre, raw, post);
    SerializeNameIgnoresCase(raw);
  }

  lemma AcmeHead(core: string)
    requires core == "acme corp"
    ensures |SerializeName(core)| == 9
    ensures SerializeName(core)[..4] == "Acme"
  {
    SerializeNameOfTrimmed(core);
    var r := SerializeName(core);
    assert r[0] == 'A' && r[1] == 'c' && r[2] == 'm' && r[3] == 'e';
  }

  lemma AcmeTail(core: string)
    requires core == "acme corp"
    ensures |SerializeName(core)| == 9
    ensures SerializeName(core)[4..] == " Corp"
  {
    SerializeNameOfTrimmed(core);
    var r := SerializeName(core);
    assert r[4] == ' ' && r[5] == 'C' && r[6] == 'o' && r[7] == 'r' && r[8] == 'p';
  }

  lemma AcmeRecased(core: string)
    requires core == "acme corp"
    ensures SerializeName(core) == "Acme Corp"
  {
    AcmeHead(core);
    AcmeTail(core);
    var r := SerializeName(core);
    assert r == r[..4] + r[4..];
  }

  /** " acme corp " is stored and sent back as "Acme Corp". */
  lemma CaseKeyExample(space: string, core: string)
    requires space == " " && core == "acme corp"
    ensures CaseKey(space + core + space) == "Acme Corp"
  {
    CaseKeyNormalises(space, core, space);
    CaseKeyIsSerializedName(core);
    AcmeRecased(core);
  }
}
