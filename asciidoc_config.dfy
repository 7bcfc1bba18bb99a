/**
 * The converter section of the site configuration: the list of extensions
 * to load and the document attributes, with the built-in defaults and the
 * merge of a user configuration over them.
 */
module Config {
  import opened Strings

  /** A configuration value. Only strings, integers and booleans are told apart;
      every other kind is represented by the text its `Display` prints. */
  datatype TomlValue = Str(text: string) | Integer(value: int) | Boolean(flag: bool) | Other(display: string)

  /** `Display` of a value, as TOML source: strings are quoted (escapes are not modelled). */
  function Display(v: TomlValue): string {
    match v
    case Str(text) => "\"" + text + "\""
    case Integer(value) => IntToString(value)
    case Boolean(flag) => if flag then "true" else "false"
    case Other(display) => display
  }

  class Asciidoc {
    var extensions: seq<string>
    var attributes: map<string, TomlValue>

    /** `Default::default`: five attributes and two extensions. */
    constructor Default()
      ensures extensions == ["asciidoctor-mathematical", "asciidoctor-diagram"]
      ensures attributes == map[
        "icons" := Str("font"),
        "toc" := Integer(1),
        "experimental" := Str(""),
        "source-highlighter" := Str("highlight.js"),
        "plantuml-format" := Str("svg")]
    {
      var m: map<string, TomlValue> := map[];
      m := m["icons" := Str("font")];
      m := m["toc" := Integer(1)];
      m := m["experimental" := Str("")];
      m := m["source-highlighter" := Str("highlight.js")];
      m := m["plantuml-format" := Str("svg")];
      extensions := ["asciidoctor-mathematical", "asciidoctor-diagram"];
      attributes := m;
    }

    constructor (extensions: seq<string>, attributes: map<string, TomlValue>)
      ensures this.extensions == extensions && this.attributes == attributes
    {
      this.extensions := extensions;
      this.attributes := attributes;
    }

    /** `extend`: the other configuration's extensions are appended, and its
        attributes are inserted, replacing values of the same key. */
    method Extend(rhs: Asciidoc)
      requires rhs != this
      modifies this
      ensures extensions == old(extensions) + rhs.extensions
      ensures attributes.Keys == old(attributes).Keys + rhs.attributes.Keys
      ensures forall k :: k in rhs.attributes ==> attributes[k] == rhs.attributes[k]
      ensures forall k :: k in old(attributes) && k !in rhs.attributes ==> attributes[k] == old(attributes)[k]
      ensures rhs.extensions == [] && rhs.attributes == map[] ==>
        extensions == old(extensions) && attributes == old(attributes)
    {
      var i := 0;
      while i < |rhs.extensions|
        invariant 0 <= i <= |rhs.extensions|
        invariant extensions == old(extensions) + rhs.extensions[..i]
        invariant attributes == old(attributes)
      {
        extensions := extensions + [rhs.extensions[i]];
        i := i + 1;
      }
      assert rhs.extensions[..i] == rhs.extensions;
      var todo := rhs.attributes.Keys;
      while todo != {}
        invariant todo <= rhs.attributes.Keys
        invariant extensions == old(extensions) + rhs.extensions
        invariant forall k :: k in attributes <==> k in old(attributes) || (k in rhs.attributes && k !in todo)
        invariant forall k :: k in attributes ==>
          attributes[k] == if k in rhs.attributes && k !in todo then rhs.attributes[k] else old(attributes)[k]
        decreases |todo|
      {
        var key :| key in todo;
        attributes := attributes[key := rhs.attributes[key]];
        todo := todo - {key};
      }
      assert attributes.Keys == old(attributes).Keys + rhs.attributes.Keys;
    }
  }
}
