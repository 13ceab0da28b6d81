/** The editing side of the feature: the `direction.options` configuration, the options that
    survive filtering, and the converter definition mapping the model attribute to the
    `direction` style of the view. */
module Editing {
  import opened Seqs
  import Utils

  /** The `direction` configuration entry. */
  datatype DirectionConfig = DirectionConfig(options: seq<string>)

  /** The model half of a converter definition: the attribute key and its values. */
  datatype ModelSpec = ModelSpec(key: string, values: seq<string>)

  /** The view half for one value: a view attribute key and the style declarations it carries. */
  datatype ViewSpec = ViewSpec(key: string, value: map<string, string>)

  /** The definition handed to the host's attribute-to-attribute conversion. */
  datatype ConverterDefinition = ConverterDefinition(model: ModelSpec, view: map<string, ViewSpec>)

  /** The view entry for one option: a `style` attribute holding `direction: <option>`. */
  function StyleFor(option: string): (spec: ViewSpec)
  {
    ViewSpec("style", map["direction" := option])
  }

  /** The default configuration: every supported option, in the same order. */
  function DefaultConfig(): (c: DirectionConfig)
    ensures c.options == Utils.SupportedOptions
    ensures Utils.SupportedOnly(c.options) == c.options
  {
    DirectionConfig(Utils.SupportedOptions)
  }

  /** The options that get a converter entry: the enabled options without the default,
      which is never written to the view. */
  function ConverterOptions(enabledOptions: seq<string>): (r: seq<string>)
    ensures |r| <= |enabledOptions|
    ensures forall o :: o in r <==> o in enabledOptions && !Utils.IsDefault(o)
  {
    Filter((o: string) => !Utils.IsDefault(o), enabledOptions)
  }

  /** Builds the converter definition for `options`: the model lists them in order and the
      view has one entry per distinct option, each mapping it to its style. */
  method BuildDefinition(options: seq<string>) returns (definition: ConverterDefinition)
    ensures definition.model == ModelSpec("direction", options)
    ensures definition.view.Keys == set o | o in options
    ensures forall o :: o in definition.view ==> definition.view[o] == StyleFor(o)
    ensures Distinct(options) ==> |definition.view| == |options|
  {
    var view: map<string, ViewSpec> := map[];
    for k := 0 to |options|
      invariant view.Keys == set o | o in options[..k]
      invariant forall o :: o in view ==> view[o] == StyleFor(o)
    {
      assert options[..k + 1] == options[..k] + [options[k]];
      view := view[options[k] := StyleFor(options[k])];
    }
    assert options[..|options|] == options;
    definition := ConverterDefinition(ModelSpec("direction", options), view);
    if Distinct(options) {
      DistinctCardinality(options);
    }
  }

  /** The pure part of `init`: the enabled options and the converter definition built from
      the configuration. Every value the converter handles is supported and not default. */
  method Init(config: DirectionConfig) returns (enabledOptions: seq<string>, definition: ConverterDefinition)
    ensures enabledOptions == Utils.SupportedOnly(config.options)
    ensures definition.model.values == ConverterOptions(enabledOptions)
    ensures forall o :: o in enabledOptions <==> o in config.options && Utils.IsSupported(o)
    ensures definition.model.key == "direction"
    ensures forall o :: o in definition.model.values <==>
      o in config.options && Utils.IsSupported(o) && !Utils.IsDefault(o)
    ensures definition.view.Keys == set o | o in definition.model.values
    ensures forall o :: o in definition.view ==>
      Utils.IsSupported(o) && !Utils.IsDefault(o) && definition.view[o] == StyleFor(o)
  {
    enabledOptions := Utils.SupportedOnly(config.options);
    definition := BuildDefinition(ConverterOptions(enabledOptions));
  }

  /** With the default configuration only `rtl` reaches the converter. */
  lemma DefaultConfigConverterOptions()
    ensures ConverterOptions(Utils.SupportedOnly(DefaultConfig().options)) == ["rtl"]
  {
    var enabled := Utils.SupportedOnly(DefaultConfig().options);
    assert enabled == ["ltr"] + ["rtl"];
    FilterConcat((o: string) => !Utils.IsDefault(o), ["ltr"], ["rtl"]);
  }

  /** The enabled options keep configuration order, and so do the converter options. */
  lemma ConverterOptionsKeepOrder(a: seq<string>, b: seq<string>)
    ensures ConverterOptions(a + b) == ConverterOptions(a) + ConverterOptions(b)
    ensures ConverterOptions(Utils.SupportedOnly(a + b))
      == ConverterOptions(Utils.SupportedOnly(a)) + ConverterOptions(Utils.SupportedOnly(b))
  {
    FilterConcat((o: string) => !Utils.IsDefault(o), a, b);
    Utils.SupportedOnlyKeepsOrder(a, b, "");
    FilterConcat((o: string) => !Utils.IsDefault(o), Utils.SupportedOnly(a), Utils.SupportedOnly(b));
  }
}
