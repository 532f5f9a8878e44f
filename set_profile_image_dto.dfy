/**
 * The profile-image choice: the input is converted to a number, which must then be an integer
 * from 1 to 4.
 */
module SetProfileImageDto {
  import opened Wrappers

  /** A JavaScript number after `Number(...)`: a finite value, or NaN / an infinity (None). */
  type JsNumber = Option<real>

  predicate IsInteger(x: real) {
    x == x.Floor as real
  }

  /** IsInt, Min(1) and Max(4) together. */
  predicate ImageValid(image: JsNumber) {
    image.Some? && IsInteger(image.value) && 1.0 <= image.value && image.value <= 4.0
  }

  /** Exactly the four image numbers 1, 2, 3 and 4 are accepted. */
  lemma ExactlyFourImages(image: JsNumber)
    ensures ImageValid(image) <==> image in {Some(1.0), Some(2.0), Some(3.0), Some(4.0)}
  {
    if ImageValid(image) {
      var n := image.value.Floor;
      assert 1 <= n <= 4;
      assert n == 1 || n == 2 || n == 3 || n == 4;
    }
  }

  lemma OutOfRangeRejected()
    ensures !ImageValid(Some(0.0)) && !ImageValid(Some(5.0)) && !ImageValid(Some(2.5)) && !ImageValid(None)
  {
    assert (2.5).Floor == 2;
  }
}
