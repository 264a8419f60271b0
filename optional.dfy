/** The nullable reference or missing value of the C# code, written as an option. */
module Optional {
  datatype Option<+T> = None | Some(value: T)
}
