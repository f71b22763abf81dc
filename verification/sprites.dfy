/**
  The sprite catalog of the frame engine: the locomotive body, the coal car,
  the two wheel phases and the smoke stages, kept as constant sequences of
  text rows. A space in a row is transparent.
 */
module Sprites {

  /** The D51 locomotive body, seven rows drawn from the base row down. */
  const D51_LINES: seq<string> := [
    "      ====        ________                ___________ ",
    "  _D _|  |_______/        \\__I_I_____===__|_________| ",
    "   |(_)---  |   H\\________/ |   |        =|___ ___|   ",
    "   /     |  |   H  |  |     |   |         ||_| |_||   ",
    "  |      |  |   H  |__--------------------| [___] |   ",
    "  | ________|___H__/__|_____/[][]~\\_______|       |   ",
    "  |/ |   |-----------I_____I [][] []  D   |=======|__ "
  ]

  /** The coal car, drawn two rows below the base row, 53 columns to the right. */
  const COAL_LINES: seq<string> := [
    "    _________________         ",
    "   _|                \\_____A  ",
    " =|                        |  ",
    " -|                        |  ",
    "__|________________________|_ ",
    "|__________________________|_ ",
    "   |_D__D__D_|  |_D__D__D_|   ",
    "    \\_/   \\_/    \\_/   \\_/    "
  ]

  /** The two wheel phases, three rows each, drawn seven rows below the base row. */
  const WHEEL_PATTERNS: seq<seq<string>> := [
    ["__/ =| o |=-~~\\  /~~\\  /~~\\  /~~\\ ____Y___________|__ ",
     " |/-=|___|=    ||    ||    ||    |_____/~\\___/        ",
     "  \\_/      \\O=====O=====O=====O_/      \\_/            "],
    ["__/ =| o |=-~~\\  /~~\\  /~~\\  /~~\\ ____Y___________|__ ",
     " |/-=|___|=O=====O=====O=====O   |_____/~\\___/        ",
     "  \\_/      \\__/  \\__/  \\__/  \\__/      \\_/            "]
  ]

  /** The smoke stages a puff passes through, one per update. */
  const SMOKE_PATTERNS: seq<string> := [
    "(   )", "(    )", "(   )", "(  )", "( )", "( )", "()", "()", "O", "O", "O", " ", " ", " "
  ]

  /** Dimensions of the catalog that the frame engine relies on. */
  lemma Dimensions()
    ensures |D51_LINES| == 7 && forall i :: 0 <= i < 7 ==> |D51_LINES[i]| == 54
    ensures |COAL_LINES| == 8 && forall i :: 0 <= i < 8 ==> |COAL_LINES[i]| == 30
    ensures |WHEEL_PATTERNS| == 2
    ensures forall p :: 0 <= p < 2 ==> |WHEEL_PATTERNS[p]| == 3
    ensures forall p, i :: 0 <= p < 2 && 0 <= i < 3 ==> |WHEEL_PATTERNS[p][i]| == 54
    ensures |SMOKE_PATTERNS| == 14
  {
  }
}
