/** The password generator (src/process/gen_pass.rs): one character from each enabled
    class, the rest drawn from the union of the enabled classes, then a shuffle.
    Every random draw is a nondeterministic choice, so each property below holds for
    every possible run. The strength estimate and the printing are outside the model. */
module GenPass {
  import opened Wrappers
  import opened Bytes
  import Utf8

  /** The four character classes. None contains 'O', 'o' or '0', which are easy to
      confuse; 'l', 'I' and '1' are kept. */
  const UPPER: string := "ABCDEFGHIJKLMNPQRSTUVWXYZ"
  const LOWER: string := "abcdefghijklmnpqrstuvwxyz"
  const NUMBER: string := "123456789"
  const SYMBOL: string := "!@#$%^&*-_"

  /** The defaults of the `genpass` command line: 16 characters, every class on. */
  const DEFAULT_LENGTH := 16

  datatype GenPassError = InvalidUtf8

  predicate IsAscii(s: string) {
    forall i :: 0 <= i < |s| ==> s[i] as int < 0x80
  }

  /** The classes are ASCII ... */
  lemma AlphabetsAreAscii()
    ensures IsAscii(UPPER) && IsAscii(LOWER) && IsAscii(NUMBER) && IsAscii(SYMBOL)
  {
    AsciiRange(UPPER, 'A', 'Z');
    AsciiRange(LOWER, 'a', 'z');
    AsciiRange(NUMBER, '1', '9');
  }

  /** ... and leave out the ambiguous 'O', 'o' and '0'. */
  lemma AlphabetsOmitAmbiguous()
    ensures 'O' !in UPPER && 'o' !in LOWER && '0' !in NUMBER
    ensures |UPPER| == 25 && |LOWER| == 25 && |NUMBER| == 9 && |SYMBOL| == 10
  {
  }

  /** A text whose characters lie in an ASCII range is ASCII. */
  lemma AsciiRange(s: string, lo: char, hi: char)
    requires hi as int < 0x80
    requires forall i :: 0 <= i < |s| ==> lo <= s[i] <= hi
    ensures IsAscii(s)
  {
  }

  function EnabledCount(uppercase: bool, lowercase: bool, number: bool, symbol: bool): nat {
    (if uppercase then 1 else 0) + (if lowercase then 1 else 0)
    + (if number then 1 else 0) + (if symbol then 1 else 0)
  }

  /** The pool `chars` the filler characters are drawn from: the enabled classes,
      concatenated in the order upper, lower, number, symbol. */
  function Pool(uppercase: bool, lowercase: bool, number: bool, symbol: bool): (chars: string)
    ensures IsAscii(chars)
    ensures |chars| == 0 <==> EnabledCount(uppercase, lowercase, number, symbol) == 0
  {
    AlphabetsAreAscii();
    var u := if uppercase then UPPER else [];
    var l := if lowercase then LOWER else [];
    var n := if number then NUMBER else [];
    var y := if symbol then SYMBOL else [];
    AsciiConcat(u, l);
    AsciiConcat(u + l, n);
    AsciiConcat(u + l + n, y);
    u + l + n + y
  }

  lemma AsciiConcat(s: string, t: string)
    requires IsAscii(s) && IsAscii(t)
    ensures IsAscii(s + t)
  {
    forall i | |s| <= i < |s + t|
      ensures (s + t)[i] as int < 0x80
    {
      assert (s + t)[i] == t[i - |s|];
    }
  }

  /** A character is in the pool exactly when it belongs to an enabled class. */
  lemma PoolContains(uppercase: bool, lowercase: bool, number: bool, symbol: bool, c: char)
    ensures c in Pool(uppercase, lowercase, number, symbol) <==>
      (uppercase && c in UPPER) || (lowercase && c in LOWER) || (number && c in NUMBER) || (symbol && c in SYMBOL)
  {
  }

  /** `SliceRandom::shuffle` (Fisher-Yates from the back): a permutation, so the
      multiset of characters is unchanged. */
  method Shuffle(s: string) returns (t: string)
    ensures |t| == |s|
    ensures multiset(t) == multiset(s)
  {
    t := s;
    var i := |t|;
    while i > 1
      invariant 0 <= i <= |t| == |s|
      invariant multiset(t) == multiset(s)
    {
      i := i - 1;
      var j :| 0 <= j <= i;
      t := t[i := t[j]][j := t[i]];
    }
  }

  /** The bytes of an ASCII text, one per character. */
  function AsciiBytes(s: string): (b: seq<byte>)
    requires IsAscii(s)
    ensures |b| == |s| && forall i :: 0 <= i < |s| ==> b[i] == s[i] as int
  {
    seq(|s|, i requires 0 <= i < |s| => s[i] as int)
  }

  /** Whether `s` holds at least one character of the class `cls`. */
  predicate Covers(s: string, cls: string) {
    exists c :: c in cls && c in s
  }

  /** `cls.choose(&mut rng)` pushed onto the password: one character of the class,
      appended. */
  method Draw(password: string, cls: string) returns (p: string)
    requires |cls| > 0
    ensures |p| == |password| + 1 && p[..|password|] == password && p[|password|] in cls
  {
    assert cls[0] in cls;
    var c :| c in cls;
    p := password + [c];
  }

  /** The first phase: one character from each enabled class, in class order, so the
      character of a class sits after those of the enabled classes before it. */
  method PickRequired(uppercase: bool, lowercase: bool, number: bool, symbol: bool)
    returns (password: string)
    ensures |password| == EnabledCount(uppercase, lowercase, number, symbol)
    ensures uppercase ==> password[0] in UPPER
    ensures lowercase ==> password[EnabledCount(uppercase, false, false, false)] in LOWER
    ensures number ==> password[EnabledCount(uppercase, lowercase, false, false)] in NUMBER
    ensures symbol ==> password[EnabledCount(uppercase, lowercase, number, false)] in SYMBOL
  {
    password := [];
    if uppercase {
      password := Draw(password, UPPER);
    }
    ghost var p1 := password;
    if lowercase {
      password := Draw(password, LOWER);
      assert password[..|p1|] == p1;
    }
    ghost var p2 := password;
    if number {
      password := Draw(password, NUMBER);
      assert password[..|p2|] == p2;
    }
    ghost var p3 := password;
    if symbol {
      password := Draw(password, SYMBOL);
      assert password[..|p3|] == p3;
    }
  }

  /** Every character of the first phase is in the pool. */
  lemma RequiredInPool(password: string, uppercase: bool, lowercase: bool, number: bool, symbol: bool)
    requires |password| == EnabledCount(uppercase, lowercase, number, symbol)
    requires uppercase ==> password[0] in UPPER
    requires lowercase ==> password[EnabledCount(uppercase, false, false, false)] in LOWER
    requires number ==> password[EnabledCount(uppercase, lowercase, false, false)] in NUMBER
    requires symbol ==> password[EnabledCount(uppercase, lowercase, number, false)] in SYMBOL
    ensures forall i :: 0 <= i < |password| ==> password[i] in Pool(uppercase, lowercase, number, symbol)
  {
    forall i | 0 <= i < |password|
      ensures password[i] in Pool(uppercase, lowercase, number, symbol)
    {
      PoolContains(uppercase, lowercase, number, symbol, password[i]);
    }
  }

  /** A character at any position covers its class. */
  lemma AtCovers(s: string, i: nat, cls: string)
    requires i < |s| && s[i] in cls
    ensures Covers(s, cls)
  {
    assert s[i] in s;
  }

  /** The second phase: `remaining` further characters drawn from `chars`, appended. */
  method Fill(prefix: string, chars: string, remaining: nat) returns (password: string)
    requires remaining > 0 ==> |chars| > 0
    ensures |password| == |prefix| + remaining
    ensures password[..|prefix|] == prefix
    ensures forall i :: |prefix| <= i < |password| ==> password[i] in chars
  {
    password := prefix;
    var k := 0;
    while k < remaining
      invariant 0 <= k <= remaining
      invariant |password| == |prefix| + k
      invariant password[..|prefix|] == prefix
      invariant forall i :: |prefix| <= i < |password| ==> password[i] in chars
    {
      assert chars[0] in chars;
      var c :| c in chars;
      password := password + [c];
      k := k + 1;
    }
  }

  /** A permutation keeps every character, so it keeps every class covered. */
  lemma PermutationCovers(s: string, t: string, cls: string)
    requires multiset(s) == multiset(t)
    ensures Covers(s, cls) <==> Covers(t, cls)
  {
    forall c ensures c in s <==> c in t {
      assert c in s <==> c in multiset(s);
      assert c in t <==> c in multiset(t);
    }
  }

  /** Extending a text keeps every class it covers covered. */
  lemma PrefixCovers(s: string, n: nat, cls: string)
    requires n <= |s| && Covers(s[..n], cls)
    ensures Covers(s, cls)
  {
    var c :| c in cls && c in s[..n];
    var i :| 0 <= i < n && s[..n][i] == c;
    assert s[i] == c;
  }

  /** `process_genpass`, returning the password it prints. Three panics are
      preconditions: the subtraction `length - password.len()` underflows when `length`
      is below the number of enabled classes; drawing from an empty pool panics when no
      class is enabled and `length > 0`; and the strength estimate's `unwrap` panics on
      an empty password, which is what no enabled class and `length == 0` produce. The
      password has exactly `length` characters, all from enabled classes, at least one
      from each enabled class, and the UTF-8 conversion cannot fail. */
  method ProcessGenpass(length: nat, uppercase: bool, lowercase: bool, number: bool, symbol: bool)
    returns (r: Result<string, GenPassError>)
    requires 0 < EnabledCount(uppercase, lowercase, number, symbol) <= length
    ensures r.Ok?
    ensures |r.value| == length
    ensures forall i :: 0 <= i < |r.value| ==> r.value[i] in Pool(uppercase, lowercase, number, symbol)
    ensures uppercase ==> Covers(r.value, UPPER)
    ensures lowercase ==> Covers(r.value, LOWER)
    ensures number ==> Covers(r.value, NUMBER)
    ensures symbol ==> Covers(r.value, SYMBOL)
  {
    var chars := Pool(uppercase, lowercase, number, symbol);
    var required := PickRequired(uppercase, lowercase, number, symbol);
    RequiredInPool(required, uppercase, lowercase, number, symbol);
    if uppercase { AtCovers(required, 0, UPPER); }
    if lowercase { AtCovers(required, EnabledCount(uppercase, false, false, false), LOWER); }
    if number { AtCovers(required, EnabledCount(uppercase, lowercase, false, false), NUMBER); }
    if symbol { AtCovers(required, EnabledCount(uppercase, lowercase, number, false), SYMBOL); }

    var password := Fill(required, chars, length - |required|);
    if uppercase { PrefixCovers(password, |required|, UPPER); }
    if lowercase { PrefixCovers(password, |required|, LOWER); }
    if number { PrefixCovers(password, |required|, NUMBER); }
    if symbol { PrefixCovers(password, |required|, SYMBOL); }
    assert forall i :: 0 <= i < |password| ==> password[i] in chars by {
      forall i | 0 <= i < |password| ensures password[i] in chars {
        if i < |required| {
          assert password[i] == password[..|required|][i];
        }
      }
    }

    r := Finish(password, chars);
    if uppercase { PermutationCovers(password, r.value, UPPER); }
    if lowercase { PermutationCovers(password, r.value, LOWER); }
    if number { PermutationCovers(password, r.value, NUMBER); }
    if symbol { PermutationCovers(password, r.value, SYMBOL); }
  }

  /** The last phase: shuffle, then convert the ASCII bytes to a `String`, which
      cannot fail. The result is a permutation of the drawn characters. */
  method Finish(password: string, chars: string) returns (r: Result<string, GenPassError>)
    requires IsAscii(chars)
    requires forall i :: 0 <= i < |password| ==> password[i] in chars
    ensures r.Ok? && |r.value| == |password| && multiset(r.value) == multiset(password)
    ensures forall i :: 0 <= i < |r.value| ==> r.value[i] in chars
  {
    var shuffled := Shuffle(password);
    assert forall i :: 0 <= i < |shuffled| ==> shuffled[i] in chars by {
      forall i | 0 <= i < |shuffled| ensures shuffled[i] in chars {
        assert shuffled[i] in multiset(password);
      }
    }

    var bytes := AsciiBytes(shuffled);
    Utf8.DecodeAscii(bytes);
    match Utf8.Decode(bytes) {
      case None =>
        r := Err(InvalidUtf8);
      case Some(s) =>
        assert s == shuffled;
        r := Ok(s);
    }
  }
}
