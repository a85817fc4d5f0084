/** The cart badge that every add-to-cart click increments in place. */
module Cart {
  import opened Wrappers
  import opened Text

  /** What `String(NaN)` shows. */
  const NotANumber := "NaN"

  /** The badge text after one click: `parseInt` of the old text plus one,
      written back as text; an unparsable text becomes `NaN` and stays so. */
  function Increment(text: string): (r: string)
    ensures ParseInt(text) == None ==> r == NotANumber
    ensures ParseInt(text).Some? ==> ParseInt(r) == Some(ParseInt(text).value + 1)
  {
    match ParseInt(text)
    case None => NotANumber
    case Some(n) =>
      ParseIntRoundTrip(n + 1);
      IntToString(n + 1)
  }

  /** A badge showing `n` shows `n + 1` after one click. */
  lemma IncrementCounts(n: int)
    ensures Increment(IntToString(n)) == IntToString(n + 1)
  {
    ParseIntRoundTrip(n);
  }

  /** Once the badge shows `NaN`, clicking leaves it at `NaN`. */
  lemma NotANumberSticks()
    ensures Increment(NotANumber) == NotANumber
  {
    assert LeadingSpace(NotANumber) == 0;
    assert DigitPrefix(NotANumber, false) == [];
  }

  /** The `.cart-icon .badge` element. */
  class CartBadge {
    var text: string

    constructor (text: string)
      ensures this.text == text
    {
      this.text := text;
    }

    /** The count update of the add-to-cart click handler. */
    method OnAddToCart()
      modifies this
      ensures text == Increment(old(text))
    {
      var currentCount := ParseInt(text);
      match currentCount
      case None =>
        text := NotANumber;
      case Some(n) =>
        text := IntToString(n + 1);
    }
  }
}
