/** `str::replace`: every non-overlapping occurrence of a pattern, found from the left. */
module Replacing {

  function Replace(s: string, pattern: string, to: string): string
    requires pattern != ""
    decreases |s|
  {
    if s == "" then ""
    else if pattern <= s then to + Replace(s[|pattern|..], pattern, to)
    else [s[0]] + Replace(s[1..], pattern, to)
  }
}
