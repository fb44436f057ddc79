// The names `git diff --name-only` prints (as xtask/src/classify_scope.rs reads
// them): a path with unusual characters stands in double quotes, with those
// characters escaped as in C.

module GitNames {

  /** With git's default settings: control characters, quotes, backslashes and everything beyond ASCII. */
  predicate IsUnusual(c: char) {
    (c as int) < 0x20 || c == '\"' || c == '\\' || 0x7F <= c as int
  }

  predicate IsPlainName(path: string) {
    forall i :: 0 <= i < |path| ==> !IsUnusual(path[i])
  }

  function Octal(byte: int): string
    requires 0 <= byte < 256
  {
    ['\\', "01234567"[byte / 64], "01234567"[byte / 8 % 8], "01234567"[byte % 8]]
  }

  /** The bytes of a character in UTF-8, each escaped. */
  function EscapeBytes(c: char): string {
    var code := c as int;
    if code < 0x80 then Octal(code)
    else if code < 0x800 then Octal(0xC0 + code / 64) + Octal(0x80 + code % 64)
    else if code < 0x1_0000 then Octal(0xE0 + code / 4096) + Octal(0x80 + code / 64 % 64) + Octal(0x80 + code % 64)
    else Octal(0xF0 + code / 262144) + Octal(0x80 + code / 4096 % 64) + Octal(0x80 + code / 64 % 64) + Octal(0x80 + code % 64)
  }

  function EscapeChar(c: char): string {
    if !IsUnusual(c) then [c]
    else if c as int == 7 then "\\a"
    else if c as int == 8 then "\\b"
    else if c == '\t' then "\\t"
    else if c == '\n' then "\\n"
    else if c as int == 11 then "\\v"
    else if c as int == 12 then "\\f"
    else if c == '\r' then "\\r"
    else if c == '\"' then "\\\""
    else if c == '\\' then "\\\\"
    else EscapeBytes(c)
  }

  function EscapeAll(path: string): string {
    if path == [] then [] else EscapeChar(path[0]) + EscapeAll(path[1..])
  }

  function GitName(path: string): string {
    if IsPlainName(path) then path else "\"" + EscapeAll(path) + "\""
  }

  /** A quoted name starts and ends with a quote, which no plain one holds. */
  lemma QuotesTell(path: string)
    ensures IsPlainName(path) ==> GitName(path) == path && '\"' !in GitName(path)
    ensures !IsPlainName(path) ==>
              var name := GitName(path); |name| >= 2 && name[0] == '\"' && name[|name| - 1] == '\"'
  {
  }

  /** A path is printed as it is exactly when it is printable ASCII without quotes and backslashes. */
  lemma PlainExactly(path: string)
    ensures GitName(path) == path <==>
              forall i :: 0 <= i < |path| ==> 0x20 <= path[i] as int < 0x7F && path[i] != '\"' && path[i] != '\\'
  {
    QuotesTell(path);
    if !IsPlainName(path) {
      EscapedIsLonger(path);
    }
  }

  lemma {:induction false} EscapedIsLonger(path: string)
    ensures |EscapeAll(path)| >= |path|
  {
    if path != [] {
      EscapedIsLonger(path[1..]);
    }
  }
}
