/** An optional value, used where the service may leave a field absent (`None` in the JSON reply). */
module Options {

  datatype Option<+T> = None | Some(value: T)

}
