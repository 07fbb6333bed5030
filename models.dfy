// The plain records of Component/Models that the slider reads and writes:
// a thumb's options and the pair handed to the release command.
module Models {

  /** A value that may be absent: `None` stands for a C# null reference. */
  datatype Option<T> = None | Some(value: T)

  /** Icon scale a freshly constructed thumb options record carries. */
  const DefaultIconScale: real := 0.75

  /** One thumb's configuration. Colours and the icon glyph are optional
      strings; `value` is the candidate the thumb currently stands on and is
      the only field the slider itself writes. */
  datatype ThumbOptions<V> = ThumbOptions(
    backgroundColor: Option<string>,
    iconColor: Option<string>,
    textColor: Option<string>,
    icon: Option<string>,
    iconScale: real,
    value: V)

  /** The options record as its constructor leaves it, once the host has
      assigned its value: no colours, no icon, the default icon scale. */
  function NewThumbOptions<V>(value: V): (o: ThumbOptions<V>)
    ensures o.iconScale == 0.75
    ensures o.value == value
    ensures o.backgroundColor == None && o.iconColor == None
    ensures o.textColor == None && o.icon == None
  {
    ThumbOptions(None, None, None, None, DefaultIconScale, value)
  }

  /** The (From, To) pair passed to the release command. */
  datatype RangeValue<V> = RangeValue(from: Option<V>, to: Option<V>)
}
