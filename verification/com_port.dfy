/**
 The test `get_valid_com_port` applies to each line typed at its prompt:
 `s.strip()`, then `.lower().startswith('com')`. An accepted line is
 returned stripped, in its original case.
 */
module ComPort {
  import opened Wrappers

  /**
   The characters Python's `str.isspace` holds true for, and so the ones
   `str.strip()` with no argument removes: the ASCII controls TAB..CR and
   FS..US, space, NEL, no-break space and the Unicode space separators,
   line and paragraph separators.
   */
  predicate IsSpace(c: char)
  {
    || '\t' <= c <= '\r'
    || '\U{1C}' <= c <= '\U{1F}'
    || c == ' '
    || c == '\U{85}'
    || c == '\U{A0}'
    || c == '\U{1680}'
    || '\U{2000}' <= c <= '\U{200A}'
    || c == '\U{2028}' || c == '\U{2029}'
    || c == '\U{202F}'
    || c == '\U{205F}'
    || c == '\U{3000}'
  }

  /** `s.lstrip()`: the suffix of `s` left after dropping every leading space. */
  function TrimStart(s: string): (r: string)
    ensures |r| <= |s| && r == s[|s| - |r|..]
    ensures forall i :: 0 <= i < |s| - |r| ==> IsSpace(s[i])
    ensures |r| > 0 ==> !IsSpace(r[0])
  {
    if |s| > 0 && IsSpace(s[0]) then TrimStart(s[1..]) else s
  }

  /** `s.rstrip()`: the prefix of `s` left after dropping every trailing space. */
  function TrimEnd(s: string): (r: string)
    ensures |r| <= |s| && r == s[..|r|]
    ensures forall i :: |r| <= i < |s| ==> IsSpace(s[i])
    ensures |r| > 0 ==> !IsSpace(r[|r| - 1])
  {
    if |s| > 0 && IsSpace(s[|s| - 1]) then TrimEnd(s[..|s| - 1]) else s
  }

  /** `s.strip()`. */
  function Strip(s: string): string
  {
    TrimEnd(TrimStart(s))
  }

  /** Lower-casing of one character, as far as the ASCII letters go. */
  function LowerChar(c: char): char
  {
    if 'A' <= c <= 'Z' then (c as int + 32) as char else c
  }

  /** `s.lower()` on the ASCII letters; every other character is kept. */
  function Lower(s: string): string
  {
    seq(|s|, i requires 0 <= i < |s| => LowerChar(s[i]))
  }

  /** `com_port.lower().startswith('com')` on the stripped line. */
  predicate IsComPort(s: string)
  {
    var t := Lower(Strip(s));
    |t| >= 3 && t[..3] == "com"
  }

  /** The loop body of `get_valid_com_port`: the stripped line when it is accepted, None when the prompt repeats. */
  function AcceptComPort(s: string): (r: Option<string>)
    ensures r.Some? <==> IsComPort(s)
    ensures r.Some? ==> r.value == Strip(s)
    ensures r.Some? ==> |r.value| <= |s| && Strip(r.value) == r.value && IsComPort(r.value)
  {
    if IsComPort(s) then
      StripIdempotent(s);
      Some(Strip(s))
    else None
  }

  /** A character lowers to `l` (a lower-case ASCII letter) exactly when it is `l` or its capital. */
  predicate IsLetter(c: char, l: char)
    requires 'a' <= l <= 'z'
  {
    c == l || c as int == l as int - 32
  }

  /** Lowering hits a lower-case ASCII letter only from that letter or its capital. */
  lemma LowerCharIs(c: char, l: char)
    requires 'a' <= l <= 'z'
    ensures LowerChar(c) == l <==> IsLetter(c, l)
  {
  }

  /** `strip` removes exactly the leading and trailing spaces, so a stripped string is its own strip. */
  lemma StripIdempotent(s: string)
    ensures Strip(Strip(s)) == Strip(s)
    ensures |Strip(s)| > 0 ==> !IsSpace(Strip(s)[0]) && !IsSpace(Strip(s)[|Strip(s)| - 1])
  {
    var t := Strip(s);
    var u := TrimStart(s);
    if |t| > 0 {
      assert t[0] == u[0];
      assert TrimStart(t) == t;
      assert TrimEnd(t) == t;
    }
  }

  /** Where the leading spaces of `s` end. */
  function SpacePrefix(s: string): (k: nat)
    ensures k <= |s|
    ensures forall i :: 0 <= i < k ==> IsSpace(s[i])
    ensures k < |s| ==> !IsSpace(s[k])
  {
    |s| - |TrimStart(s)|
  }

  /** `x` begins with c, o, m, each in either case. */
  predicate StartsWithCom(x: string)
  {
    |x| >= 3 && IsLetter(x[0], 'c') && IsLetter(x[1], 'o') && IsLetter(x[2], 'm')
  }

  /** Lower-casing then testing for the prefix "com" is testing for c, o, m in either case. */
  lemma LowerStartsWithCom(x: string)
    ensures (|Lower(x)| >= 3 && Lower(x)[..3] == "com") <==> StartsWithCom(x)
  {
    if |x| >= 3 {
      LowerCharIs(x[0], 'c');
      LowerCharIs(x[1], 'o');
      LowerCharIs(x[2], 'm');
      var low := Lower(x);
      assert low[..3] == "com" <==> low[0] == 'c' && low[1] == 'o' && low[2] == 'm';
    }
  }

  /** Trailing spaces never reach into a leading c, o, m, so `rstrip` keeps the prefix test unchanged. */
  lemma TrimEndStartsWithCom(u: string)
    ensures StartsWithCom(TrimEnd(u)) <==> StartsWithCom(u)
  {
    var t := TrimEnd(u);
    if StartsWithCom(u) {
      assert !IsSpace(u[0]) && !IsSpace(u[1]) && !IsSpace(u[2]);
      assert |t| >= 3;
      assert t[0] == u[0] && t[1] == u[1] && t[2] == u[2];
    }
    if StartsWithCom(t) {
      assert t[0] == u[0] && t[1] == u[1] && t[2] == u[2];
    }
  }

  /**
   The test looks only at the first three characters after the leading
   spaces: a line is accepted exactly when they are c, o and m in either
   case, whatever follows.
   */
  lemma IsComPortCharacterised(s: string)
    ensures var k := SpacePrefix(s);
      IsComPort(s) <==>
        k + 3 <= |s| && IsLetter(s[k], 'c') && IsLetter(s[k + 1], 'o') && IsLetter(s[k + 2], 'm')
  {
    var k := SpacePrefix(s);
    var u := TrimStart(s);
    assert u == s[k..];
    LowerStartsWithCom(Strip(s));
    TrimEndStartsWithCom(u);
    if |u| >= 3 {
      assert u[0] == s[k] && u[1] == s[k + 1] && u[2] == s[k + 2];
    }
  }

  /** The prompt's own example is accepted as typed. */
  lemma ExampleAccepted()
    ensures AcceptComPort("COM3") == Some("COM3")
  {
    var line := "COM3";
    assert !IsSpace(line[0]) && !IsSpace(line[3]);
    assert TrimStart(line) == line;
    assert TrimEnd(line) == line;
    LowerStartsWithCom(line);
  }

  /** Typed in lower case between spaces and a newline, it is accepted and returned stripped. */
  lemma ExampleAcceptedPadded()
    ensures AcceptComPort("  com3\n") == Some("com3")
  {
    LeadingSpacesTrimmed();
    TrailingNewlineTrimmed();
    assert Strip("  com3\n") == "com3";
    LowerStartsWithCom("com3");
  }

  /** `lstrip` drops a leading space and carries on with the rest. */
  lemma TrimStartSpace(c: char, s: string)
    requires IsSpace(c)
    ensures TrimStart([c] + s) == TrimStart(s)
  {
    assert ([c] + s)[1..] == s;
  }

  /** `"  com3\n".lstrip()` drops the two spaces. */
  lemma LeadingSpacesTrimmed()
    ensures TrimStart("  com3\n") == "com3\n"
  {
    var body := "com3\n";
    assert TrimStart(body) == body by { assert !IsSpace(body[0]); }
    TrimStartSpace(' ', body);
    TrimStartSpace(' ', [' '] + body);
    assert [' '] + ([' '] + body) == "  com3\n";
  }

  /** `"com3\n".rstrip()` drops the newline. */
  lemma TrailingNewlineTrimmed()
    ensures TrimEnd("com3\n") == "com3"
  {
    var body := "com3\n";
    var port := "com3";
    assert TrimEnd(port) == port by { assert !IsSpace(port[3]); }
    assert IsSpace(body[4]) && body[..4] == port;
  }

  /** A Unix device path is refused. */
  lemma ExampleDevicePathRefused()
    ensures AcceptComPort("/dev/ttyUSB0") == None
  {
    var line := "/dev/ttyUSB0";
    assert !IsSpace(line[0]);
    assert TrimStart(line) == line;
    IsComPortCharacterised(line);
  }

  /** An empty line and a prefix split by a space are refused. */
  lemma ExampleShortRefused()
    ensures AcceptComPort("") == None
    ensures AcceptComPort("co m3") == None
  {
    IsComPortCharacterised("");
    var line := "co m3";
    assert !IsSpace(line[0]) && line[2] == ' ';
    assert TrimStart(line) == line;
    IsComPortCharacterised(line);
  }
}
