/** The direction policy: which direction values the plugin supports and which one is the
    default (the value a block has when it carries no direction attribute). */
module Utils {
  import opened Seqs

  /** The supported direction options, the default one first. */
  const SupportedOptions: seq<string> := ["ltr", "rtl"]

  /** Whether an option is one of the supported directions (`supportedOptions.includes`). */
  function IsSupported(option: string): (r: bool)
    ensures r <==> option == "ltr" || option == "rtl"
  {
    option in SupportedOptions
  }

  /** Whether a direction is the default one; only left-to-right is. */
  function IsDefault(direction: string): (r: bool)
    ensures r ==> IsSupported(direction)
    ensures r <==> direction == SupportedOptions[0]
  {
    direction == "ltr"
  }

  /** The configured options that are supported, in configuration order
      (`options.filter( isSupported )`). */
  function SupportedOnly(options: seq<string>): (r: seq<string>)
    ensures |r| <= |options|
    ensures forall o :: o in r <==> o in options && IsSupported(o)
    ensures forall k :: 0 <= k < |r| ==> IsSupported(r[k])
  {
    Filter(IsSupported, options)
  }

  /** `SupportedOnly` keeps configuration order: it distributes over concatenation and keeps
      or drops each single option according to `IsSupported`. */
  lemma SupportedOnlyKeepsOrder(a: seq<string>, b: seq<string>, o: string)
    ensures SupportedOnly(a + b) == SupportedOnly(a) + SupportedOnly(b)
    ensures SupportedOnly([o]) == if IsSupported(o) then [o] else []
  {
    FilterConcat(IsSupported, a, b);
  }

  /** The supported list has no repetitions, starts with the default and holds exactly one
      default value; the other option, right-to-left, is supported and not default. */
  lemma SupportedOptionsShape()
    ensures Distinct(SupportedOptions)
    ensures |SupportedOptions| == 2 && IsDefault(SupportedOptions[0])
    ensures forall k :: 1 <= k < |SupportedOptions| ==> !IsDefault(SupportedOptions[k])
    ensures IsSupported("rtl") && !IsDefault("rtl")
    ensures SupportedOnly(SupportedOptions) == SupportedOptions
  {
  }
}
