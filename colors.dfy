/**
 * get_color: resolving an identifier to a colour label.  The C switch is
 * modelled as its list of arms, each copying a label into the buffer and
 * either breaking or falling through into the next arm, so that the
 * missing break after the 3087 arm is part of the model rather than of
 * its result table.
 */
module Colors {
  import opened Layout

  /** One arm of a switch: the label it copies, and whether a break follows */
  datatype Arm = Case(value: int, text: string, breaks: bool) | Default(text: string, breaks: bool)

  /** get_color's arms in source order; the 3087 arm has no break */
  const ColorSwitch: seq<Arm> := [
    Case(3072, "White", true),
    Case(3076, "Green", true),
    Case(3083, "Yellow", true),
    Case(3085, "Red", true),
    Case(3086, "Blue", true),
    Case(3087, "Purple", false),
    Case(3123, "Black", true),
    Default("Invalid", true)
  ]

  /** The same arms with the break after "Purple" restored */
  const ColorSwitchFixed: seq<Arm> := ColorSwitch[5 := Case(3087, "Purple", true)]

  /** Position of the first case at or after k whose value is id, or |arms| */
  function FindCase(arms: seq<Arm>, id: int, k: nat): (e: nat)
    requires k <= |arms|
    ensures k <= e <= |arms|
    decreases |arms| - k
  {
    if k == |arms| then |arms|
    else if arms[k].Case? && arms[k].value == id then k
    else FindCase(arms, id, k + 1)
  }

  /** Position of the first default arm at or after k, or |arms| */
  function FindDefault(arms: seq<Arm>, k: nat): (e: nat)
    requires k <= |arms|
    ensures k <= e <= |arms|
    decreases |arms| - k
  {
    if k == |arms| then |arms|
    else if arms[k].Default? then k
    else FindDefault(arms, k + 1)
  }

  /** Run the arms from position k on, each overwriting the buffer, until a break or the end */
  function Execute(arms: seq<Arm>, k: nat, buffer: string): string
    requires k <= |arms|
    decreases |arms| - k
  {
    if k == |arms| then buffer
    else if arms[k].breaks then arms[k].text
    else Execute(arms, k + 1, arms[k].text)
  }

  /** C switch semantics: jump to the matching case, else to default, else past the switch */
  function RunSwitch(arms: seq<Arm>, id: int, buffer: string): string
  {
    var hit := FindCase(arms, id, 0);
    Execute(arms, if hit < |arms| then hit else FindDefault(arms, 0), buffer)
  }

  /** The switch as written, evaluated arm by arm for an arbitrary id */
  lemma ColorSwitchOutcome(id: int)
    ensures RunSwitch(ColorSwitch, id, "") ==
      if id == 3072 then "White"
      else if id == 3076 then "Green"
      else if id == 3083 then "Yellow"
      else if id == 3085 then "Red"
      else if id == 3086 then "Blue"
      else if id == 3087 || id == 3123 then "Black"
      else "Invalid"
  {
  }

  /** The switch with the break restored, evaluated arm by arm for an arbitrary id */
  lemma ColorSwitchFixedOutcome(id: int)
    ensures RunSwitch(ColorSwitchFixed, id, "") ==
      if id == 3072 then "White"
      else if id == 3076 then "Green"
      else if id == 3083 then "Yellow"
      else if id == 3085 then "Red"
      else if id == 3086 then "Blue"
      else if id == 3087 then "Purple"
      else if id == 3123 then "Black"
      else "Invalid"
  {
    var a := ColorSwitchFixed;
    assert a[5] == Case(3087, "Purple", true);
    assert FindCase(a, id, 8) == 8;
    assert FindCase(a, id, 7) == 8;
    assert FindCase(a, id, 6) == if id == 3123 then 6 else 8;
    assert FindCase(a, id, 5) == if id == 3087 then 5 else FindCase(a, id, 6);
    assert FindCase(a, id, 4) == if id == 3086 then 4 else FindCase(a, id, 5);
    assert FindCase(a, id, 3) == if id == 3085 then 3 else FindCase(a, id, 4);
    assert FindCase(a, id, 2) == if id == 3083 then 2 else FindCase(a, id, 3);
    assert FindCase(a, id, 1) == if id == 3076 then 1 else FindCase(a, id, 2);
    assert FindCase(a, id, 0) == if id == 3072 then 0 else FindCase(a, id, 1);
    assert FindDefault(a, 7) == 7;
    assert FindDefault(a, 6) == 7;
    assert FindDefault(a, 5) == 7;
    assert FindDefault(a, 4) == 7;
    assert FindDefault(a, 3) == 7;
    assert FindDefault(a, 2) == 7;
    assert FindDefault(a, 1) == 7;
    assert FindDefault(a, 0) == 7;
  }

  /** The identifiers that have a case of their own in get_color's switch */
  predicate IsTableId(id: int)
  {
    id == 3072 || id == 3076 || id == 3083 || id == 3085 || id == 3086 || id == 3087 || id == 3123
  }

  /** get_color as written: the label left in the buffer once the switch has run */
  function GetColor(id: int): (color: string)
    ensures color == "White" <==> id == 3072
    ensures color == "Green" <==> id == 3076
    ensures color == "Yellow" <==> id == 3083
    ensures color == "Red" <==> id == 3085
    ensures color == "Blue" <==> id == 3086
    ensures color == "Black" <==> id == 3087 || id == 3123
    ensures color == "Invalid" <==> !IsTableId(id)
    ensures |color| <= ColorsChar
  {
    ColorSwitchOutcome(id);
    RunSwitch(ColorSwitch, id, "")
  }

  /** get_color as evidently intended: 3087 resolves to "Purple" */
  function GetColorIntended(id: int): (color: string)
    ensures color == "Purple" <==> id == 3087
    ensures color == "Black" <==> id == 3123
    ensures color == "Invalid" <==> !IsTableId(id)
    ensures id != 3087 ==> color == GetColor(id)
    ensures |color| <= ColorsChar
  {
    ColorSwitchFixedOutcome(id);
    RunSwitch(ColorSwitchFixed, id, "")
  }

  /** As written, "Purple" is never produced and 3087 is indistinguishable from 3123 */
  lemma FallthroughHidesPurple()
    ensures GetColor(3087) == GetColor(3123) == "Black"
    ensures forall id :: GetColor(id) != "Purple"
  {
  }

  /** With the break restored, every identifier of the table has a label of its own */
  lemma IntendedLabelsAreDistinct(a: int, b: int)
    requires IsTableId(a) && IsTableId(b) && a != b
    ensures GetColorIntended(a) != GetColorIntended(b)
  {
  }
}
