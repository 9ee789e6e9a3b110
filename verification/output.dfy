/** What `execute` does to a command's captured standard output after
    decoding it: Rust's `str::trim`, which strips leading and trailing
    characters with the Unicode `White_Space` property. */
module Output {

  /** Rust's `char::is_whitespace`: the Unicode `White_Space` property. */
  predicate IsWhitespace(c: char)
  {
    var n := c as int;
    (0x09 <= n <= 0x0D) || n == 0x20 || n == 0x85 || n == 0xA0 || n == 0x1680
    || (0x2000 <= n <= 0x200A) || n == 0x2028 || n == 0x2029 || n == 0x202F
    || n == 0x205F || n == 0x3000
  }

  predicate AllWhitespace(s: string)
  {
    forall i :: 0 <= i < |s| ==> IsWhitespace(s[i])
  }

  /** `s` with its leading whitespace removed. */
  function TrimStart(s: string): (r: string)
    ensures |r| <= |s| && r == s[|s| - |r|..]
    ensures AllWhitespace(s[..|s| - |r|])
    ensures r == [] || !IsWhitespace(r[0])
  {
    if s == [] || !IsWhitespace(s[0]) then s else TrimStart(s[1..])
  }

  /** `s` with its trailing whitespace removed. */
  function TrimEnd(s: string): (r: string)
    ensures |r| <= |s| && r == s[..|r|]
    ensures AllWhitespace(s[|r|..])
    ensures r == [] || !IsWhitespace(r[|r| - 1])
  {
    if s == [] || !IsWhitespace(s[|s| - 1]) then s else TrimEnd(s[..|s| - 1])
  }

  /** `str::trim`. */
  function Trim(s: string): string
  {
    TrimEnd(TrimStart(s))
  }

  /** The trimmed text is the slice of `s` between a whitespace-only head and
      a whitespace-only tail, and it neither begins nor ends with whitespace:
      exactly the whitespace at both ends is removed and nothing inside. */
  lemma TrimIsMaximalSlice(s: string)
    ensures var r := Trim(s);
      exists i, j :: 0 <= i <= j <= |s| && r == s[i..j]
        && AllWhitespace(s[..i]) && AllWhitespace(s[j..])
        && (r == [] || (!IsWhitespace(r[0]) && !IsWhitespace(r[|r| - 1])))
  {
    var t := TrimStart(s);
    var r := TrimEnd(t);
    var i := |s| - |t|;
    var j := i + |r|;
    assert r == s[i..j];
    assert s[j..] == t[|r|..];
    if r != [] {
      assert r[0] == t[0];
    }
  }

  /** Trimming twice is trimming once. */
  lemma TrimIdempotent(s: string)
    ensures Trim(Trim(s)) == Trim(s)
  {
    var r := Trim(s);
    if r != [] {
      assert r[0] == TrimStart(s)[0];
    }
  }

  /** `execute`'s result from the command's decoded standard output. */
  function ExecuteOutput(stdout: string): (r: string)
    ensures exists i, j ::
      && 0 <= i <= j <= |stdout| && r == stdout[i..j]
      && AllWhitespace(stdout[..i]) && AllWhitespace(stdout[j..])
    ensures r == [] || (!IsWhitespace(r[0]) && !IsWhitespace(r[|r| - 1]))
  {
    TrimIsMaximalSlice(stdout);
    Trim(stdout)
  }

  /** What the `execute` tests of lib.rs receive from `echo hello`. */
  lemma TrimExample()
    ensures ExecuteOutput("hello\n") == "hello"
  {
    assert !IsWhitespace('h') && !IsWhitespace('o');
    assert TrimStart("hello\n") == "hello\n";
    assert "hello\n"[..5] == "hello";
    assert TrimEnd("hello\n") == TrimEnd("hello");
  }
}
