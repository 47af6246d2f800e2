/** The states of a UIKit gesture recognizer (`UIGestureRecognizer.State`),
    shared by the two custom recognizers of the demo. */
module Gestures {

  datatype GestureState = Possible | Began | Changed | Ended | Cancelled | Failed
}
