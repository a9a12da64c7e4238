/**
 * The amount selector of the top-up screen: a current amount that preset
 * buttons set outright and step buttons move within [min, max], shown with
 * an optional sign.
 *
 * The widgets themselves are not modelled: the displayed label is kept as
 * its sign prefix and the magnitude it shows, and every call of the
 * optional change callback is recorded, with the value passed, in `changes`.
 */
module AmountSelectors {
  import opened Wrappers

  /** The label's content: the sign prefix, then "€ " and the magnitude to two decimals. */
  datatype Display = Display(sign: string, magnitude: real)

  /** _format_display: "+ " or "- " for a nonzero value when signs are shown, and the absolute value. */
  function FormatDisplay(value: real, showSign: bool): (d: Display)
    ensures d.sign == "+ " <==> showSign && value > 0.0
    ensures d.sign == "- " <==> showSign && value < 0.0
    ensures d.sign == "" <==> !showSign || value == 0.0
    ensures d.magnitude >= 0.0 && (d.magnitude == value || d.magnitude == -value)
  {
    var sign := if value > 0.0 && showSign then "+ " else if value < 0.0 && showSign then "- " else "";
    Display(sign, if value < 0.0 then -value else value)
  }

  /** The value change_value keeps: below `lo` gives `lo`, else above `hi` gives `hi`, else the value. */
  function Clamp(v: real, lo: real, hi: real): (r: real)
    ensures lo <= hi ==> lo <= r <= hi
    ensures lo <= v <= hi ==> r == v
    ensures v < lo ==> r == lo
    ensures lo <= v && v > hi ==> r == hi
  {
    if v < lo then lo else if v > hi then hi else v
  }

  /** Clamping twice changes nothing more, when the bounds are in order. */
  lemma ClampIdempotent(v: real, lo: real, hi: real)
    requires lo <= hi
    ensures Clamp(Clamp(v, lo, hi), lo, hi) == Clamp(v, lo, hi)
  {
  }

  /** Python's `xs or default`: an absent or empty list falls back to the default. */
  function OrDefault(xs: Option<seq<int>>, default: seq<int>): (r: seq<int>)
    ensures xs.Some? && xs.value != [] ==> r == xs.value
    ensures xs.None? || xs.value == [] ==> r == default
  {
    if xs.Some? && xs.value != [] then xs.value else default
  }

  const DEFAULT_PRESETS: seq<int> := [5, 10, 20, 50]
  const DEFAULT_STEPS: seq<int> := [-5, -1, 1, 5]

  class AmountSelector {
    var value: real
    var minValue: real
    var maxValue: real
    var presets: seq<int>
    var steps: seq<int>
    var hasOnChange: bool
    var showSign: bool
    /** What the label shows. */
    var shown: Display
    /** Every value passed to the change callback, in call order. */
    var changes: seq<real>

    constructor (initialValue: real := 10.0, minValue: real := 0.0, maxValue: real := 1000.0,
                 presetAmounts: Option<seq<int>> := None, stepAmounts: Option<seq<int>> := None,
                 hasOnChange: bool := false, showSign: bool := true)
      ensures this.value == initialValue && this.minValue == minValue && this.maxValue == maxValue
      ensures presets == OrDefault(presetAmounts, DEFAULT_PRESETS) && steps == OrDefault(stepAmounts, DEFAULT_STEPS)
      ensures this.hasOnChange == hasOnChange && this.showSign == showSign
      ensures shown == FormatDisplay(initialValue, showSign) && changes == []
      ensures Shows()
    {
      value := initialValue;
      this.minValue := minValue;
      this.maxValue := maxValue;
      presets := OrDefault(presetAmounts, DEFAULT_PRESETS);
      steps := OrDefault(stepAmounts, DEFAULT_STEPS);
      this.hasOnChange := hasOnChange;
      this.showSign := showSign;
      shown := FormatDisplay(initialValue, showSign);
      changes := [];
    }

    /** The label shows the stored amount. */
    predicate Shows()
      reads this
    {
      shown == FormatDisplay(value, showSign)
    }

    /** The `value` getter: the last value stored, which the label shows after every change. */
    function Value(): (r: real)
      reads this
      ensures r == value
      ensures Shows() ==> shown == FormatDisplay(r, showSign)
    {
      value
    }

    /** _refresh_display: redraws the label and calls the callback, if any, with the value. */
    method RefreshDisplay()
      modifies this
      ensures shown == FormatDisplay(value, showSign)
      ensures changes == if hasOnChange then old(changes) + [value] else old(changes)
      ensures value == old(value) && minValue == old(minValue) && maxValue == old(maxValue)
      ensures presets == old(presets) && steps == old(steps)
      ensures hasOnChange == old(hasOnChange) && showSign == old(showSign)
    {
      shown := FormatDisplay(value, showSign);
      if hasOnChange {
        changes := changes + [value];
      }
    }

    /** set_value, the `value` setter and a preset button: store the amount as given, unclamped. */
    method SetValue(amount: real)
      modifies this
      ensures value == amount && Value() == amount
      ensures shown == FormatDisplay(amount, showSign) && Shows()
      ensures changes == if hasOnChange then old(changes) + [amount] else old(changes)
      ensures minValue == old(minValue) && maxValue == old(maxValue) && showSign == old(showSign)
      ensures hasOnChange == old(hasOnChange) && presets == old(presets) && steps == old(steps)
    {
      value := amount;
      RefreshDisplay();
    }

    /** reset: stores the given value (10.0 by default), unclamped. */
    method Reset(amount: real := 10.0)
      modifies this
      ensures value == amount
      ensures shown == FormatDisplay(amount, showSign) && Shows()
      ensures changes == if hasOnChange then old(changes) + [amount] else old(changes)
      ensures minValue == old(minValue) && maxValue == old(maxValue) && showSign == old(showSign)
      ensures hasOnChange == old(hasOnChange) && presets == old(presets) && steps == old(steps)
    {
      value := amount;
      RefreshDisplay();
    }

    /** change_value: moves the amount by `delta`, clamped into [min, max]. */
    method ChangeValue(delta: real)
      modifies this
      ensures value == Clamp(old(value) + delta, minValue, maxValue)
      ensures minValue <= maxValue ==> minValue <= value <= maxValue
      ensures shown == FormatDisplay(value, showSign) && Shows()
      ensures changes == if hasOnChange then old(changes) + [value] else old(changes)
      ensures minValue == old(minValue) && maxValue == old(maxValue) && showSign == old(showSign)
      ensures hasOnChange == old(hasOnChange) && presets == old(presets) && steps == old(steps)
    {
      var newValue := value + delta;
      if newValue < minValue {
        newValue := minValue;
      } else if newValue > maxValue {
        newValue := maxValue;
      }
      value := newValue;
      RefreshDisplay();
    }
  }
}
