/** Python's `None`-or-value results, as returned by `re.match` and by
    `normalize_mac_address`. */
module Wrappers {

  datatype Option<+T> = None | Some(value: T)

}
