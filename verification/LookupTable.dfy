/** Constant tables, written sixteen entries to a row. */
module LookupTable {

  /** The k-th of sixteen entries, for k < 16. */
  function Entry<T>(k: bv8, e0: T, e1: T, e2: T, e3: T, e4: T, e5: T, e6: T, e7: T,
                 e8: T, e9: T, ea: T, eb: T, ec: T, ed: T, ee: T, ef: T): T {
    if k < 8 then
      if k < 4 then
        if k < 2 then (if k < 1 then e0 else e1) else (if k < 3 then e2 else e3)
      else
        if k < 6 then (if k < 5 then e4 else e5) else (if k < 7 then e6 else e7)
    else
      if k < 12 then
        if k < 10 then (if k < 9 then e8 else e9) else (if k < 11 then ea else eb)
      else
        if k < 14 then (if k < 13 then ec else ed) else (if k < 15 then ee else ef)
  }
}
