/**
 * The command-line helpers of `main`: the `--vid`/`--pid` value parser `parse_hex_16`,
 * with the `u16::from_str_radix` it relies on, and the removal of this tool's own
 * flags from the arguments handed on to `cargo build`.
 */
module Cli {
  import opened Ints
  import opened Wrappers

  /** The kinds of `std::num::ParseIntError` an unsigned parse can produce. */
  datatype IntErrorKind = Empty | InvalidDigit | PosOverflow

  /** `char::to_digit(radix)` for the two radixes in use: decimal digits, and for 16 also `a-f`/`A-F`. */
  function DigitOf(c: char, radix: nat): (d: Option<nat>)
    requires radix == 10 || radix == 16
    ensures d.Some? ==> d.value < radix
    ensures '0' <= c <= '9' ==> d == Some(c as int - '0' as int)
    ensures radix == 16 && 'a' <= c <= 'f' ==> d == Some(c as int - 'a' as int + 10)
    ensures radix == 16 && 'A' <= c <= 'F' ==> d == Some(c as int - 'A' as int + 10)
    ensures d.None? <==> !('0' <= c <= '9') && (radix == 10 || !('a' <= c <= 'f' || 'A' <= c <= 'F'))
  {
    if '0' <= c <= '9' then Some(c as int - '0' as int)
    else if radix == 16 && 'a' <= c <= 'f' then Some(c as int - 'a' as int + 10)
    else if radix == 16 && 'A' <= c <= 'F' then Some(c as int - 'A' as int + 10)
    else None
  }

  /** The first `n` characters of `s` are all digits in `radix`. */
  ghost predicate DigitsUpTo(s: string, radix: nat, n: nat)
    requires radix == 10 || radix == 16
  {
    n <= |s| && forall k :: 0 <= k < n ==> DigitOf(s[k], radix).Some?
  }

  /** The number the first `n` digits of `s` denote in `radix`, most significant first. */
  ghost function Value(s: string, radix: nat, n: nat): nat
    requires radix == 10 || radix == 16
    requires DigitsUpTo(s, radix, n)
  {
    if n == 0 then 0 else Value(s, radix, n - 1) * radix + DigitOf(s[n - 1], radix).value
  }

  /** A longer digit prefix never denotes a smaller number. */
  lemma {:induction false} ValueMonotone(s: string, radix: nat, m: nat, n: nat)
    requires radix == 10 || radix == 16
    requires m <= n && DigitsUpTo(s, radix, n)
    ensures Value(s, radix, m) <= Value(s, radix, n)
    decreases n - m
  {
    if m < n {
      assert DigitsUpTo(s, radix, n - 1);
      ValueMonotone(s, radix, m, n - 1);
    }
  }

  /**
   * The digit loop of `from_str_radix`, from position `i` with the value `acc` read so far:
   * a non-digit is `InvalidDigit`, a value past `u16::MAX` is `PosOverflow`, whichever
   * comes first; the digit test precedes the overflow test for the same character.
   */
  function Accumulate(s: string, radix: nat, i: nat, acc: u16): (r: Result<u16, IntErrorKind>)
    requires radix == 10 || radix == 16
    requires i <= |s|
    ensures r.Err? ==> r.error != Empty
    decreases |s| - i
  {
    if i == |s| then Ok(acc)
    else match DigitOf(s[i], radix)
      case None => Err(InvalidDigit)
      case Some(d) =>
        if acc * radix + d > U16_MAX then Err(PosOverflow)
        else Accumulate(s, radix, i + 1, acc * radix + d)
  }

  /** The loop's result is the value of the whole digit string, exactly when every character is a digit and the value fits. */
  lemma {:induction false} AccumulateValue(s: string, radix: nat, i: nat, acc: u16)
    requires radix == 10 || radix == 16
    requires DigitsUpTo(s, radix, i) && acc == Value(s, radix, i)
    ensures Accumulate(s, radix, i, acc).Ok? <==> DigitsUpTo(s, radix, |s|) && Value(s, radix, |s|) <= U16_MAX
    ensures Accumulate(s, radix, i, acc).Ok? ==> Accumulate(s, radix, i, acc).value == Value(s, radix, |s|)
    decreases |s| - i
  {
    if i < |s| {
      match DigitOf(s[i], radix)
      case None =>
      case Some(d) =>
        assert DigitsUpTo(s, radix, i + 1);
        if acc * radix + d > U16_MAX {
          if DigitsUpTo(s, radix, |s|) {
            ValueMonotone(s, radix, i + 1, |s|);
          }
        } else {
          AccumulateValue(s, radix, i + 1, acc * radix + d);
        }
    }
  }

  /** The digits `from_str_radix` reads: the input without one leading `+`. */
  function Unsigned(src: string): (digits: string)
    ensures |src| > 0 && src[0] == '+' ==> src == "+" + digits
    ensures |src| > 0 && src[0] != '+' ==> digits == src
  {
    if |src| > 0 && src[0] == '+' then src[1..] else src
  }

  /** `src` is a well-formed unsigned numeral in `radix` denoting `v`. */
  ghost predicate Denotes(src: string, radix: nat, v: nat)
    requires radix == 10 || radix == 16
  {
    var digits := Unsigned(src);
    |digits| > 0 && DigitsUpTo(digits, radix, |digits|) && Value(digits, radix, |digits|) == v
  }

  /**
   * `u16::from_str_radix`: empty input is `Empty`; a lone sign is `InvalidDigit`; one
   * leading `+` is skipped; a `-` is not a digit, so any negative numeral is `InvalidDigit`.
   */
  function FromStrRadix(src: string, radix: nat): (r: Result<u16, IntErrorKind>)
    requires radix == 10 || radix == 16
    ensures r == Err(Empty) <==> src == ""
    ensures src == "+" || src == "-" ==> r == Err(InvalidDigit)
  {
    if |src| == 0 then Err(Empty)
    else if (src[0] == '+' || src[0] == '-') && |src| == 1 then Err(InvalidDigit)
    else Accumulate(Unsigned(src), radix, 0, 0)
  }

  /** `from_str_radix` succeeds with `v` exactly when the input is a numeral denoting `v` and `v` fits in 16 bits. */
  lemma FromStrRadixValue(src: string, radix: nat, v: nat)
    requires radix == 10 || radix == 16
    ensures FromStrRadix(src, radix) == Ok(v) <==> Denotes(src, radix, v) && v <= U16_MAX
  {
    if |src| > 0 && !((src[0] == '+' || src[0] == '-') && |src| == 1) {
      AccumulateValue(Unsigned(src), radix, 0, 0);
    }
  }

  /** The input starts with the lowercase prefix `0x`. */
  predicate HexPrefixed(input: string) {
    |input| >= 2 && input[0] == '0' && input[1] == 'x'
  }

  /** `parse_hex_16`: after a lowercase `0x`, the rest in base 16; any other input in base 10. */
  function ParseHex16(input: string): (r: Result<u16, IntErrorKind>)
    ensures r == Err(Empty) <==> input == "" || input == "0x"
  {
    if HexPrefixed(input) then FromStrRadix(input[2..], 16) else FromStrRadix(input, 10)
  }

  /**
   * `parse_hex_16` yields `v` exactly when the input is `0x` followed by a hexadecimal
   * numeral denoting `v`, or is a decimal numeral denoting `v`, and `v <= 65535`.
   */
  lemma ParseHex16Value(input: string, v: nat)
    ensures ParseHex16(input) == Ok(v) <==>
              v <= U16_MAX &&
              if HexPrefixed(input) then Denotes(input[2..], 16, v) else Denotes(input, 10, v)
  {
    if HexPrefixed(input) {
      FromStrRadixValue(input[2..], 16, v);
    } else {
      FromStrRadixValue(input, 10, v);
    }
  }

  /** Worked cases: hexadecimal with `0x`, decimal without, and the uppercase `0X` that is not a prefix. */
  lemma ParseHex16Examples()
    ensures ParseHex16("0x1f") == Ok(31)
    ensures ParseHex16("0xDF11") == Ok(0xdf11)
    ensures ParseHex16("1155") == Ok(1155)
    ensures ParseHex16("0X10") == Err(InvalidDigit)
    ensures ParseHex16("65536") == Err(PosOverflow)
    ensures ParseHex16("-1") == Err(InvalidDigit)
  {
    assert "0x1f"[2..] == "1f";
    assert "0xDF11"[2..] == "DF11";
  }

  // ---------------------------------------------------------------------------------
  // Flag stripping

  /** The options `cargo build` does not understand, in the order they are stripped. */
  const FLAGS: seq<string> := ["--pid", "--vid", "--chip"]

  /** `args.iter().position(|x| x == flag)`: the index of the first occurrence. */
  function Position<T(==)>(args: seq<T>, flag: T): (r: Option<nat>)
    ensures r.None? <==> flag !in args
    ensures r.Some? ==> r.value < |args| && args[r.value] == flag && flag !in args[..r.value]
  {
    if |args| == 0 then None
    else if args[0] == flag then Some(0)
    else match Position(args[1..], flag)
      case None => None
      case Some(i) =>
        assert args[1..][..i] == args[1..i + 1];
        assert args[..i + 1] == [args[0]] + args[1..i + 1];
        Some(i + 1)
  }

  /**
   * One round of the loop: the first occurrence of `flag` and the element after it are
   * removed; `None` when the flag is the last element, where the second `remove` panics.
   */
  function RemoveFlag<T(==)>(args: seq<T>, flag: T): (r: Option<seq<T>>)
    ensures flag !in args ==> r == Some(args)
    ensures r.None? <==> flag in args && Position(args, flag).value == |args| - 1
    ensures r.Some? && flag in args ==> |r.value| == |args| - 2
  {
    match Position(args, flag)
    case None => Some(args)
    case Some(i) => if i + 1 < |args| then Some(args[..i] + args[i + 2..]) else None
  }

  /** Cutting out the two elements at `i` and `i + 1` leaves the others, as a multiset. */
  lemma CutPairMultiset<T>(args: seq<T>, i: nat)
    requires i + 1 < |args|
    ensures multiset(args[..i] + args[i + 2..]) + multiset{args[i], args[i + 1]} == multiset(args)
  {
    assert args[i..] == [args[i], args[i + 1]] + args[i + 2..];
    assert args == args[..i] + args[i..];
  }

  /**
   * Removing a flag takes out exactly the flag's first occurrence and the value after it;
   * every other element stays, in its relative order.
   */
  lemma RemoveFlagTakesPairOnly<T>(args: seq<T>, flag: T)
    requires flag in args && RemoveFlag(args, flag).Some?
    ensures var i := Position(args, flag).value;
            var out := RemoveFlag(args, flag).value;
            i + 1 < |args| &&
            multiset(out) + multiset{flag, args[i + 1]} == multiset(args) &&
            forall k :: 0 <= k < |out| ==> out[k] == if k < i then args[k] else args[k + 2]
  {
    CutPairMultiset(args, Position(args, flag).value);
  }

  /** A round removes nothing, or the two elements of one pair. */
  lemma RemoveFlagShrinks<T>(args: seq<T>, flag: T)
    requires RemoveFlag(args, flag).Some?
    ensures multiset(RemoveFlag(args, flag).value) <= multiset(args)
    ensures |RemoveFlag(args, flag).value| == |args| || |RemoveFlag(args, flag).value| == |args| - 2
  {
    if flag in args {
      RemoveFlagTakesPairOnly(args, flag);
    }
  }

  /** An occurrence of the flag after the first one, and not its value, survives the round. */
  lemma LaterOccurrenceKept<T>(args: seq<T>, flag: T, j: nat)
    requires j < |args| && args[j] == flag
    requires j != Position(args, flag).value && j != Position(args, flag).value + 1
    ensures RemoveFlag(args, flag).Some?
    ensures j >= 2 && RemoveFlag(args, flag).value[j - 2] == flag
  {
  }

  /** The argument vector after the first `n` flags have been stripped, or `None` after a panic. */
  function StripSteps<T(==)>(args: seq<T>, flags: seq<T>, n: nat): Option<seq<T>>
    requires n <= |flags|
  {
    if n == 0 then Some(args)
    else match StripSteps(args, flags, n - 1)
      case None => None
      case Some(rest) => RemoveFlag(rest, flags[n - 1])
  }

  /** Once a round has panicked, nothing later runs. */
  lemma {:induction false} PanicIsFinal<T>(args: seq<T>, flags: seq<T>, n: nat, m: nat)
    requires n <= m <= |flags| && StripSteps(args, flags, n).None?
    ensures StripSteps(args, flags, m).None?
    decreases m - n
  {
    if n < m {
      PanicIsFinal(args, flags, n, m - 1);
    }
  }

  /** The body of the loop for one flag: find it, then `remove(index)` twice. */
  method StripOne<T(==)>(args: seq<T>, flag: T) returns (r: Option<seq<T>>)
    ensures r == RemoveFlag(args, flag)
  {
    var rest := args;
    var index := Position(rest, flag);
    if index.Some? {
      var i := index.value;
      rest := rest[..i] + rest[i + 1..];
      if i >= |rest| {
        return None;
      }
      rest := rest[..i] + rest[i + 1..];
      assert rest == args[..i] + args[i + 2..];
    }
    r := Some(rest);
  }

  /** The flag-stripping loop of `main`, over its own copy of the arguments. */
  method StripFlags<T(==)>(args: seq<T>, flags: seq<T>) returns (r: Option<seq<T>>)
    ensures r == StripSteps(args, flags, |flags|)
  {
    var rest := args;
    for n := 0 to |flags|
      invariant StripSteps(args, flags, n) == Some(rest)
    {
      var next := StripOne(rest, flags[n]);
      if next.None? {
        PanicIsFinal(args, flags, n + 1, |flags|);
        return None;
      }
      rest := next.value;
    }
    r := Some(rest);
  }

  /** Arguments that mention none of the flags are handed on unchanged. */
  lemma {:induction false} NoFlagsUnchanged<T>(args: seq<T>, flags: seq<T>, n: nat)
    requires n <= |flags|
    requires forall f :: f in flags ==> f !in args
    ensures StripSteps(args, flags, n) == Some(args)
  {
    if n > 0 {
      NoFlagsUnchanged(args, flags, n - 1);
    }
  }

  /**
   * Stripping only ever removes elements: what is handed on is a sub-multiset of the
   * arguments, shorter by at most two per flag.
   */
  lemma {:induction false} StripOnlyRemoves<T>(args: seq<T>, flags: seq<T>, n: nat)
    requires n <= |flags| && StripSteps(args, flags, n).Some?
    ensures multiset(StripSteps(args, flags, n).value) <= multiset(args)
    ensures |args| - 2 * n <= |StripSteps(args, flags, n).value| <= |args|
  {
    if n > 0 {
      var rest := StripSteps(args, flags, n - 1).value;
      StripOnlyRemoves(args, flags, n - 1);
      RemoveFlagShrinks(rest, flags[n - 1]);
    }
  }

  /**
   * Worked cases: `--chip` and its value go, `--delay` and `--release` stay; a `--pid`
   * with no value after it panics.
   */
  lemma StripExamples()
    ensures StripSteps(["--chip", "stm32", "--release", "--delay", "100"], FLAGS, |FLAGS|)
              == Some(["--release", "--delay", "100"])
    ensures StripSteps(["--release", "--pid"], FLAGS, |FLAGS|) == None
  {
    var args := ["--chip", "stm32", "--release", "--delay", "100"];
    assert "--pid" != "--chip" && "--vid" != "--chip";
    assert "--pid" !in args && "--vid" !in args;
    assert StripSteps(args, FLAGS, 2) == Some(args);
    assert Position(args, "--chip") == Some(0);
    assert args[..0] + args[2..] == ["--release", "--delay", "100"];
    var short := ["--release", "--pid"];
    assert Position(short, "--pid") == Some(1);
  }
}
