/**
 * Configuration parsing and validation of setup.go. The Caddy tokenizer is
 * not modelled: the input is the list of arguments on the directive's own
 * line (single-line form) and the list of directive lines inside its braces
 * (block form). Turning one token into a range is getIPRange, passed in as
 * a function so that the parser's lemmas hold for any converter; setup.go's
 * getIPRange is GetIPRange(parseAddress), where `parseAddress` stands for
 * net.ParseCIDR and net.ParseIP.
 */
module ConfigParser {
  import opened Wrappers
  import opened Bytes
  import opened RangeConverter

  const ModeNftLocal: string := "nft-local"
  const ModeNftGateway: string := "nft-gateway"

  /** parsedConfig: the mode string and the flat list start0, end0, start1, end1, ... */
  datatype ParsedConfig = ParsedConfig(mode: string, allowedIPs: seq<Address>)

  /** One line of the block form: the directive word and the arguments after it. */
  datatype Directive = Directive(name: string, args: seq<string>)

  datatype ConfigError =
    | RangeFailed(token: string, reason: RangeError)
    | ModeArity(count: nat)
    | AllowedIPsEmpty
    | UnknownDirective(name: string)

  /** getIPRange: one token to its (start, end) pair or the reason there is none. */
  type RangeParser = string -> Result<(Address, Address), RangeError>

  /** setup.go's getIPRange: parse the token, then convert. */
  function GetIPRange(parseAddress: string -> ParsedAddress): RangeParser
  {
    t => RangeOf(parseAddress(t))
  }

  /**
   * Appends the range of each token to `acc`, left to right; the first token
   * without a range ends the parse with its error.
   */
  function ExpandRanges(tokens: seq<string>, getIPRange: RangeParser, acc: seq<Address>)
    : Result<seq<Address>, ConfigError>
  {
    if tokens == [] then Ok(acc)
    else
      match getIPRange(tokens[0])
      case Err(e) => Err(RangeFailed(tokens[0], e))
      case Ok(r) => ExpandRanges(tokens[1..], getIPRange, acc + [r.0, r.1])
  }

  /** The (start, end) pair of every token that has a range, in token order. */
  function TokenPairs(tokens: seq<string>, getIPRange: RangeParser): seq<Address>
  {
    if tokens == [] then []
    else
      var first := match getIPRange(tokens[0])
        case Ok(r) => [r.0, r.1]
        case Err(_) => [];
      first + TokenPairs(tokens[1..], getIPRange)
  }

  /** The token pairs of every allowedIPs line of a block, in line order. */
  function BlockPairs(lines: seq<Directive>, getIPRange: RangeParser): seq<Address>
  {
    if lines == [] then []
    else
      var first := if lines[0].name == "allowedIPs" then TokenPairs(lines[0].args, getIPRange) else [];
      first + BlockPairs(lines[1..], getIPRange)
  }

  /** The block form, one directive line at a time, starting from `config`. */
  function ParseBlock(lines: seq<Directive>, getIPRange: RangeParser, config: ParsedConfig)
    : Result<ParsedConfig, ConfigError>
  {
    if lines == [] then Ok(config)
    else
      var d := lines[0];
      if d.name == "mode" then
        if |d.args| != 1 then Err(ModeArity(|d.args|))
        else ParseBlock(lines[1..], getIPRange, config.(mode := d.args[0]))
      else if d.name == "allowedIPs" then
        if |d.args| == 0 then Err(AllowedIPsEmpty)
        else
          match ExpandRanges(d.args, getIPRange, config.allowedIPs)
          case Err(e) => Err(e)
          case Ok(ips) => ParseBlock(lines[1..], getIPRange, config.(allowedIPs := ips))
      else Err(UnknownDirective(d.name))
  }

  /**
   * parseConfig: arguments on the directive's line select the single-line
   * form (mode first, then addresses) and the block is then not read;
   * otherwise the block is parsed from an empty mode and no addresses.
   */
  function ParseConfigSpec(args: seq<string>, lines: seq<Directive>, getIPRange: RangeParser)
    : Result<ParsedConfig, ConfigError>
  {
    if |args| > 0 then
      match ExpandRanges(args[1..], getIPRange, [])
      case Err(e) => Err(e)
      case Ok(ips) => Ok(ParsedConfig(args[0], ips))
    else
      ParseBlock(lines, getIPRange, ParsedConfig("", []))
  }

  /** setup.go's parseConfig: loops that append to the configuration. */
  method ParseConfig(args: seq<string>, lines: seq<Directive>, getIPRange: RangeParser)
    returns (r: Result<ParsedConfig, ConfigError>)
    ensures r == ParseConfigSpec(args, lines, getIPRange)
  {
    var config := ParsedConfig("", []);
    if |args| > 0 {
      config := config.(mode := args[0]);
      var i := 1;
      while i < |args|
        invariant 1 <= i <= |args|
        invariant config.mode == args[0]
        invariant ExpandRanges(args[1..], getIPRange, []) == ExpandRanges(args[i..], getIPRange, config.allowedIPs)
      {
        assert args[i..][1..] == args[i + 1..];
        var range := getIPRange(args[i]);
        if range.Err? {
          return Err(RangeFailed(args[i], range.error));
        }
        config := config.(allowedIPs := config.allowedIPs + [range.value.0, range.value.1]);
        i := i + 1;
      }
      return Ok(config);
    }

    var j := 0;
    while j < |lines|
      invariant 0 <= j <= |lines|
      invariant ParseBlock(lines, getIPRange, ParsedConfig("", [])) == ParseBlock(lines[j..], getIPRange, config)
    {
      assert lines[j..][1..] == lines[j + 1..];
      var d := lines[j];
      if d.name == "mode" {
        if |d.args| != 1 {
          return Err(ModeArity(|d.args|));
        }
        config := config.(mode := d.args[0]);
      } else if d.name == "allowedIPs" {
        if |d.args| == 0 {
          return Err(AllowedIPsEmpty);
        }
        ghost var before := config;
        var k := 0;
        while k < |d.args|
          invariant 0 <= k <= |d.args|
          invariant config.mode == before.mode
          invariant ExpandRanges(d.args, getIPRange, before.allowedIPs)
                 == ExpandRanges(d.args[k..], getIPRange, config.allowedIPs)
        {
          assert d.args[k..][1..] == d.args[k + 1..];
          var range := getIPRange(d.args[k]);
          if range.Err? {
            return Err(RangeFailed(d.args[k], range.error));
          }
          config := config.(allowedIPs := config.allowedIPs + [range.value.0, range.value.1]);
          k := k + 1;
        }
      } else {
        return Err(UnknownDirective(d.name));
      }
      j := j + 1;
    }
    return Ok(config);
  }

  /**
   * A successful expansion keeps what was accumulated and adds exactly one
   * (start, end) pair per token, in token order.
   */
  lemma {:induction false} ExpandRangesPairs(tokens: seq<string>, getIPRange: RangeParser,
                                            acc: seq<Address>)
    requires ExpandRanges(tokens, getIPRange, acc).Ok?
    ensures var out := ExpandRanges(tokens, getIPRange, acc).value;
      && |out| == |acc| + 2 * |tokens|
      && out[..|acc|] == acc
      && forall i :: 0 <= i < |tokens| ==>
           && getIPRange(tokens[i]).Ok?
           && out[|acc| + 2 * i] == getIPRange(tokens[i]).value.0
           && out[|acc| + 2 * i + 1] == getIPRange(tokens[i]).value.1
  {
    if tokens != [] {
      var r := getIPRange(tokens[0]).value;
      var acc' := acc + [r.0, r.1];
      ExpandRangesPairs(tokens[1..], getIPRange, acc');
      var out := ExpandRanges(tokens, getIPRange, acc).value;
      assert out[..|acc|] == out[..|acc'|][..|acc|];
      forall i | 0 <= i < |tokens|
        ensures getIPRange(tokens[i]).Ok?
        ensures out[|acc| + 2 * i] == getIPRange(tokens[i]).value.0
        ensures out[|acc| + 2 * i + 1] == getIPRange(tokens[i]).value.1
      {
        if i > 0 {
          assert tokens[1..][i - 1] == tokens[i];
          assert |acc'| + 2 * (i - 1) == |acc| + 2 * i;
        } else {
          assert out[..|acc'|] == acc';
          assert out[|acc|] == acc'[|acc|] && out[|acc| + 1] == acc'[|acc| + 1];
        }
      }
    }
  }

  /**
   * Expansion fails exactly when some token has no range, and then with the
   * error of the first such token.
   */
  lemma {:induction false} ExpandRangesFails(tokens: seq<string>, getIPRange: RangeParser,
                                            acc: seq<Address>)
    ensures ExpandRanges(tokens, getIPRange, acc).Err?
        <==> exists i :: 0 <= i < |tokens| && getIPRange(tokens[i]).Err?
    ensures ExpandRanges(tokens, getIPRange, acc).Err? ==>
      exists i :: 0 <= i < |tokens|
        && (forall j :: 0 <= j < i ==> getIPRange(tokens[j]).Ok?)
        && getIPRange(tokens[i]).Err?
        && ExpandRanges(tokens, getIPRange, acc).error
           == RangeFailed(tokens[i], getIPRange(tokens[i]).error)
  {
    if tokens != [] {
      var first := getIPRange(tokens[0]);
      if first.Ok? {
        ExpandRangesFails(tokens[1..], getIPRange, acc + [first.value.0, first.value.1]);
        if ExpandRanges(tokens, getIPRange, acc).Err? {
          var i :| 0 <= i < |tokens[1..]|
            && (forall j :: 0 <= j < i ==> getIPRange(tokens[1..][j]).Ok?)
            && getIPRange(tokens[1..][i]).Err?
            && ExpandRanges(tokens, getIPRange, acc).error
               == RangeFailed(tokens[1..][i], getIPRange(tokens[1..][i]).error);
          assert forall j :: 0 <= j < i + 1 ==> getIPRange(tokens[j]).Ok? by {
            forall j | 0 <= j < i + 1 ensures getIPRange(tokens[j]).Ok? {
              if j > 0 { assert tokens[j] == tokens[1..][j - 1]; }
            }
          }
          assert tokens[i + 1] == tokens[1..][i];
        } else {
          forall i | 0 <= i < |tokens| ensures getIPRange(tokens[i]).Ok? {
            if i > 0 { assert tokens[i] == tokens[1..][i - 1]; }
          }
        }
      }
    }
  }

  /** A directive line the block parser accepts. */
  predicate LineAccepted(d: Directive, getIPRange: RangeParser)
  {
    || (d.name == "mode" && |d.args| == 1)
    || (d.name == "allowedIPs" && |d.args| > 0
        && forall i :: 0 <= i < |d.args| ==> getIPRange(d.args[i]).Ok?)
  }

  /** The block parses exactly when every line is accepted. */
  lemma {:induction false} ParseBlockAccepts(lines: seq<Directive>, getIPRange: RangeParser,
                                            config: ParsedConfig)
    ensures ParseBlock(lines, getIPRange, config).Ok?
        <==> forall j :: 0 <= j < |lines| ==> LineAccepted(lines[j], getIPRange)
  {
    if lines != [] {
      var d := lines[0];
      var next := config;
      if d.name == "mode" && |d.args| == 1 {
        next := config.(mode := d.args[0]);
      } else if d.name == "allowedIPs" && |d.args| > 0 {
        ExpandRangesFails(d.args, getIPRange, config.allowedIPs);
        if ExpandRanges(d.args, getIPRange, config.allowedIPs).Ok? {
          next := config.(allowedIPs := ExpandRanges(d.args, getIPRange, config.allowedIPs).value);
        }
      }
      ParseBlockAccepts(lines[1..], getIPRange, next);
      assert forall j :: 0 < j < |lines| ==> lines[j] == lines[1..][j - 1];
    }
  }

  /** A parsed block extends the starting addresses by whole pairs. */
  lemma {:induction false} ParseBlockAddresses(lines: seq<Directive>, getIPRange: RangeParser,
                                              config: ParsedConfig)
    requires ParseBlock(lines, getIPRange, config).Ok?
    ensures var out := ParseBlock(lines, getIPRange, config).value;
      && |out.allowedIPs| >= |config.allowedIPs|
      && (|out.allowedIPs| - |config.allowedIPs|) % 2 == 0
      && out.allowedIPs[..|config.allowedIPs|] == config.allowedIPs
  {
    if lines != [] {
      var d := lines[0];
      var next := config;
      if d.name == "mode" {
        next := config.(mode := d.args[0]);
      } else {
        ExpandRangesPairs(d.args, getIPRange, config.allowedIPs);
        next := config.(allowedIPs := ExpandRanges(d.args, getIPRange, config.allowedIPs).value);
      }
      ParseBlockAddresses(lines[1..], getIPRange, next);
      var out := ParseBlock(lines, getIPRange, config).value;
      assert out == ParseBlock(lines[1..], getIPRange, next).value;
      assert out.allowedIPs[..|config.allowedIPs|] == out.allowedIPs[..|next.allowedIPs|][..|config.allowedIPs|];
    }
  }

  /** A successful expansion appends to `acc` exactly the pairs of the tokens. */
  lemma {:induction false} ExpandIsPairs(tokens: seq<string>, getIPRange: RangeParser,
                                        acc: seq<Address>)
    requires ExpandRanges(tokens, getIPRange, acc).Ok?
    ensures ExpandRanges(tokens, getIPRange, acc).value == acc + TokenPairs(tokens, getIPRange)
  {
    if tokens != [] {
      var r := getIPRange(tokens[0]).value;
      ExpandIsPairs(tokens[1..], getIPRange, acc + [r.0, r.1]);
      assert acc + [r.0, r.1] + TokenPairs(tokens[1..], getIPRange)
          == acc + ([r.0, r.1] + TokenPairs(tokens[1..], getIPRange));
    }
  }

  /**
   * A parsed block appends to the starting addresses exactly the pairs of
   * its allowedIPs lines, line by line and token by token.
   */
  lemma {:induction false} BlockIsPairs(lines: seq<Directive>, getIPRange: RangeParser,
                                       config: ParsedConfig)
    requires ParseBlock(lines, getIPRange, config).Ok?
    ensures ParseBlock(lines, getIPRange, config).value.allowedIPs
         == config.allowedIPs + BlockPairs(lines, getIPRange)
  {
    if lines != [] {
      var d := lines[0];
      var rest := BlockPairs(lines[1..], getIPRange);
      if d.name == "mode" {
        var next := config.(mode := d.args[0]);
        assert ParseBlock(lines, getIPRange, config) == ParseBlock(lines[1..], getIPRange, next);
        BlockIsPairs(lines[1..], getIPRange, next);
        assert BlockPairs(lines, getIPRange) == [] + rest;
        assert [] + rest == rest;
      } else {
        ExpandIsPairs(d.args, getIPRange, config.allowedIPs);
        var next := config.(allowedIPs := ExpandRanges(d.args, getIPRange, config.allowedIPs).value);
        assert ParseBlock(lines, getIPRange, config) == ParseBlock(lines[1..], getIPRange, next);
        BlockIsPairs(lines[1..], getIPRange, next);
        assert BlockPairs(lines, getIPRange) == TokenPairs(d.args, getIPRange) + rest;
        assert config.allowedIPs + TokenPairs(d.args, getIPRange) + rest
            == config.allowedIPs + (TokenPairs(d.args, getIPRange) + rest);
      }
    }
  }

  /**
   * In a parsed block every mode line has its one argument, and the mode is
   * that of the last mode line, or the starting mode when there is none.
   */
  lemma {:induction false} ParseBlockMode(lines: seq<Directive>, getIPRange: RangeParser,
                                         config: ParsedConfig)
    requires ParseBlock(lines, getIPRange, config).Ok?
    ensures forall j :: 0 <= j < |lines| && lines[j].name == "mode" ==> |lines[j].args| == 1
    ensures var out := ParseBlock(lines, getIPRange, config).value;
      && ((forall j :: 0 <= j < |lines| ==> lines[j].name != "mode") ==> out.mode == config.mode)
      && (forall j :: (0 <= j < |lines| && lines[j].name == "mode"
                       && (forall k :: j < k < |lines| ==> lines[k].name != "mode"))
                       ==> out.mode == lines[j].args[0])
  {
    ParseBlockAccepts(lines, getIPRange, config);
    if lines != [] {
      var d := lines[0];
      var next := config;
      if d.name == "mode" {
        next := config.(mode := d.args[0]);
      } else {
        next := config.(allowedIPs := ExpandRanges(d.args, getIPRange, config.allowedIPs).value);
      }
      ParseBlockMode(lines[1..], getIPRange, next);
      assert forall j :: 0 < j < |lines| ==> lines[j] == lines[1..][j - 1];
      assert ParseBlock(lines, getIPRange, config) == ParseBlock(lines[1..], getIPRange, next);
    }
  }

  /**
   * The first rejected line decides the error: a mode line with other than
   * one argument, an allowedIPs line with none, a token without a range, or
   * an unknown directive.
   */
  lemma {:induction false} ParseBlockFirstError(lines: seq<Directive>, getIPRange: RangeParser,
                                               config: ParsedConfig, j: nat)
    requires j < |lines| && !LineAccepted(lines[j], getIPRange)
    requires forall k :: 0 <= k < j ==> LineAccepted(lines[k], getIPRange)
    ensures var r := ParseBlock(lines, getIPRange, config);
      var d := lines[j];
      && r.Err?
      && (d.name == "mode" ==> r.error == ModeArity(|d.args|))
      && (d.name == "allowedIPs" && d.args == [] ==> r.error == AllowedIPsEmpty)
      && (d.name == "allowedIPs" && d.args != [] ==> r.error.RangeFailed? && r.error.token in d.args)
      && (d.name != "mode" && d.name != "allowedIPs" ==> r.error == UnknownDirective(d.name))
  {
    var d := lines[0];
    if j == 0 {
      if d.name == "allowedIPs" && d.args != [] {
        ExpandRangesFails(d.args, getIPRange, config.allowedIPs);
      }
    } else {
      var next := config;
      if d.name == "mode" {
        next := config.(mode := d.args[0]);
      } else {
        ExpandRangesFails(d.args, getIPRange, config.allowedIPs);
        next := config.(allowedIPs := ExpandRanges(d.args, getIPRange, config.allowedIPs).value);
      }
      assert forall k :: 0 <= k < j - 1 ==> lines[1..][k] == lines[k + 1];
      ParseBlockFirstError(lines[1..], getIPRange, next, j - 1);
    }
  }

  /**
   * What parseConfig returns: pairs only, the single-line form's first
   * argument as the mode with the block ignored, and an empty block as an
   * empty mode without addresses.
   */
  lemma ParseConfigShape(args: seq<string>, lines: seq<Directive>, getIPRange: RangeParser)
    ensures var r := ParseConfigSpec(args, lines, getIPRange);
      && (r.Ok? ==> |r.value.allowedIPs| % 2 == 0)
      && (|args| > 0 ==> r == ParseConfigSpec(args, [], getIPRange))
      && (|args| > 0 && r.Ok? ==> (r.value.mode == args[0] && |r.value.allowedIPs| == 2 * (|args| - 1)))
      && (|args| > 0 && r.Ok? ==> r.value.allowedIPs == TokenPairs(args[1..], getIPRange))
      && (args == [] && r.Ok? ==> r.value.allowedIPs == BlockPairs(lines, getIPRange))
      && (args == [] && lines == [] ==> r == Ok(ParsedConfig("", [])))
  {
    var r := ParseConfigSpec(args, lines, getIPRange);
    if |args| > 0 {
      var e := ExpandRanges(args[1..], getIPRange, []);
      assert r == ParseConfigSpec(args, [], getIPRange);
      if e.Ok? {
        assert r == Ok(ParsedConfig(args[0], e.value));
        SingleLineAddresses(args[1..], getIPRange);
      } else {
        assert r.Err?;
      }
    } else {
      var b := ParseBlock(lines, getIPRange, ParsedConfig("", []));
      assert r == b;
      if b.Ok? {
        BlockAddresses(lines, getIPRange);
      }
    }
  }

  /** The addresses of the single-line form: one pair per token, in order. */
  lemma SingleLineAddresses(tokens: seq<string>, getIPRange: RangeParser)
    requires ExpandRanges(tokens, getIPRange, []).Ok?
    ensures var ips := ExpandRanges(tokens, getIPRange, []).value;
      && |ips| == 2 * |tokens|
      && ips == TokenPairs(tokens, getIPRange)
  {
    ExpandRangesPairs(tokens, getIPRange, []);
    ExpandIsPairs(tokens, getIPRange, []);
    assert [] + TokenPairs(tokens, getIPRange) == TokenPairs(tokens, getIPRange);
  }

  /** The addresses of the block form from an empty start: whole pairs, those of BlockPairs. */
  lemma BlockAddresses(lines: seq<Directive>, getIPRange: RangeParser)
    requires ParseBlock(lines, getIPRange, ParsedConfig("", [])).Ok?
    ensures var ips := ParseBlock(lines, getIPRange, ParsedConfig("", [])).value.allowedIPs;
      && |ips| % 2 == 0
      && ips == BlockPairs(lines, getIPRange)
  {
    ParseBlockAddresses(lines, getIPRange, ParsedConfig("", []));
    BlockIsPairs(lines, getIPRange, ParsedConfig("", []));
    assert [] + BlockPairs(lines, getIPRange) == BlockPairs(lines, getIPRange);
  }

  /** A single line with a mode and one token holds the mode and that token's range. */
  lemma SingleLineOneToken(mode: string, token: string, getIPRange: RangeParser, range: (Address, Address))
    requires getIPRange(token) == Ok(range)
    ensures ParseConfigSpec([mode, token], [], getIPRange) == Ok(ParsedConfig(mode, [range.0, range.1]))
  {
    assert [mode, token][1..] == [token] && [token][1..] == [];
    var none: seq<Address> := [];
    assert none + [range.0, range.1] == [range.0, range.1];
    assert ExpandRanges([token], getIPRange, none) == ExpandRanges([token][1..], getIPRange, none + [range.0, range.1]);
  }

  /**
   * The single-line form "nft-local 10.0.0.0/24", with setup.go's
   * getIPRange: mode nft-local and the one range [10.0.0.0, 10.0.1.0).
   */
  lemma ExampleSingleLineCidr(parseAddress: string -> ParsedAddress)
    requires parseAddress("10.0.0.0/24") == Cidr([10, 0, 0, 0], 24)
    ensures ParseConfigSpec(["nft-local", "10.0.0.0/24"], [], GetIPRange(parseAddress))
         == Ok(ParsedConfig("nft-local", [[10, 0, 0, 0], [10, 0, 1, 0]]))
  {
    ExampleV4CidrTen();
    SingleLineOneToken("nft-local", "10.0.0.0/24", GetIPRange(parseAddress), ([10, 0, 0, 0], [10, 0, 1, 0]));
  }

  /**
   * The single-line form "nft-local 999.999.999.999", with setup.go's
   * getIPRange: the token is no address, so parsing fails with
   * getIPRange's error for that token.
   */
  lemma ExampleSingleLineInvalid(parseAddress: string -> ParsedAddress)
    requires parseAddress("999.999.999.999") == NotAnAddress
    ensures ParseConfigSpec(["nft-local", "999.999.999.999"], [], GetIPRange(parseAddress))
         == Err(RangeFailed("999.999.999.999", CantExtractRange))
  {
    assert ["nft-local", "999.999.999.999"][1..] == ["999.999.999.999"];
  }

  datatype ValidationError = ModeRequired | InvalidMode(mode: string)

  /** validateConfig: the mode must be one of the two supported names. */
  function ValidateConfig(config: ParsedConfig): (r: Option<ValidationError>)
    ensures r.None? <==> config.mode == ModeNftLocal || config.mode == ModeNftGateway
    ensures r == Some(ModeRequired) <==> config.mode == ""
    ensures r.Some? && config.mode != "" ==> r == Some(InvalidMode(config.mode))
  {
    if config.mode == "" then Some(ModeRequired)
    else if config.mode != ModeNftLocal && config.mode != ModeNftGateway then Some(InvalidMode(config.mode))
    else None
  }
}
