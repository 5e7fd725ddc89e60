/**
 C# nullable references. An operand or field that may be `null` in the
 C# program is an `Option` here: `None` stands for `null`.
 */
module Optional {

  datatype Option<+T> = None | Some(value: T)
}
