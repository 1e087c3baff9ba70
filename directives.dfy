/** The directive resolver `processNode` of src/index.ts: the prefix matcher
    OP_MATCHER and the switch over its captured tag. The resolver works on
    the whole leaf string; it never strips the matched prefix. */
module Directives {
  import opened Wrappers
  import opened Json

  /** The obfuscator built from the processor's own configuration. */
  datatype Obfuscator = Obfuscator(
    /** None when the encoder throws. */
    encodeString: (string, Option<string>) -> Option<string>,
    /** None when the obfuscator rejects its input (it throws). */
    decodeString: string -> Option<string>)

  /** What processNode reads from the JavaScript process around it. */
  datatype Runtime = Runtime(
    /** `process.env`. */
    env: map<string, string>,
    /** The text `fs.readFileSync(path, "utf8")` returns, for every path it can read. */
    files: map<string, string>,
    /** The bytes of `Buffer.from(s, "base64")`. */
    base64Bytes: string -> seq<bv8>,
    /** `buffer.toString("utf8")`. */
    utf8Text: seq<bv8> -> string,
    /** `new Obfuscator(options)`, given `config.obfuscator` or None for
        undefined; None when the constructor throws. */
    newObfuscator: Option<Value> -> Option<Obfuscator>,
    /** How many nested processNode calls fit on the call stack. */
    stackDepth: nat)

  /** The exceptions the processor raises or lets through. */
  datatype Error =
    | ObfuscatorNotAllowed
    | UnknownOp
    | FileUnreadable(path: string)
    | ObfuscatorRejected(input: string)
    | StackOverflow
    | PropertyOfNullish
    | ObfuscatorConstructionFailed
    | EncodeRejected(plain: string)

  /** The value of a hexadecimal digit, either case. */
  function HexDigit(c: char): (d: Option<bv8>)
    ensures d.Some? ==> d.value < 16
  {
    if '0' <= c <= '9' then Some((c as int - '0' as int) as bv8)
    else if 'a' <= c <= 'f' then Some((c as int - 'a' as int + 10) as bv8)
    else if 'A' <= c <= 'F' then Some((c as int - 'A' as int + 10) as bv8)
    else None
  }

  /** The bytes of `Buffer.from(s, "hex")`: one byte per pair of hex digits,
      stopping at the first pair that is not two hex digits (Node truncates
      there) and dropping an odd last digit. */
  function HexBytes(s: string): (b: seq<bv8>)
    ensures |b| <= |s| / 2
  {
    if |s| < 2 || HexDigit(s[0]).None? || HexDigit(s[1]).None? then []
    else [HexDigit(s[0]).value * 16 + HexDigit(s[1]).value] + HexBytes(s[2..])
  }

  /** The alternatives of OP_MATCHER, in the order the regex tries them. */
  const Ops: seq<string> := ["RAW", "HEX", "B64", "ENV", "FILE", "OBF"]

  /** `s` begins with directive tag `t` and a colon. */
  predicate HasTag(s: string, t: string) {
    t + ":" <= s
  }

  /** The first alternative, from the `i`-th on, that matches at the start of `s`. */
  function MatchOpFrom(s: string, i: nat): (r: Option<string>)
    requires i <= |Ops|
    decreases |Ops| - i
    ensures r.Some? ==> r.value in Ops[i..] && HasTag(s, r.value)
    ensures r.None? ==> forall j :: i <= j < |Ops| ==> !HasTag(s, Ops[j])
  {
    if i == |Ops| then None
    else if HasTag(s, Ops[i]) then Some(Ops[i])
    else MatchOpFrom(s, i + 1)
  }

  /** `val.match(OP_MATCHER)`, reduced to its capture group `matches[1]`. */
  function MatchOp(s: string): (r: Option<string>)
    ensures r.Some? ==> r.value in Ops && HasTag(s, r.value)
    ensures r.None? ==> forall t :: t in Ops ==> !HasTag(s, t)
  {
    MatchOpFrom(s, 0)
  }

  /** What one activation of processNode does with its string: return a
      result, or hand a new string to a nested processNode call. */
  datatype Step = Done(result: Result<string, Error>) | Resubmit(next: string)

  /** The body of processNode up to its recursive call: the empty-string
      check, the match, and the switch on the captured tag. */
  function Dispatch(rt: Runtime, obfuscator: Option<Obfuscator>, val: string): (r: Step)
    ensures r != Done(Failure(UnknownOp))
    ensures r.Resubmit? ==> HasTag(val, "ENV") || HasTag(val, "FILE")
  {
    if val == "" then Done(Success(val))
    else match MatchOp(val)
      case None => Done(Success(val))
      case Some(op) =>
        if op == "RAW" then Done(Success(val))
        else if op == "HEX" then Done(Success(rt.utf8Text(HexBytes(val))))
        else if op == "B64" then Done(Success(rt.utf8Text(rt.base64Bytes(val))))
        else if op == "ENV" then Resubmit(if val in rt.env then rt.env[val] else "")
        else if op == "FILE" then
          if val in rt.files then Resubmit(rt.files[val]) else Done(Failure(FileUnreadable(val)))
        else if op == "OBF" then
          if obfuscator.None? then Done(Failure(ObfuscatorNotAllowed))
          else match obfuscator.value.decodeString(val)
            case Some(plain) => Done(Success(plain))
            case None => Done(Failure(ObfuscatorRejected(val)))
        else Done(Failure(UnknownOp))
  }

  /** processNode's recursion: run one activation and, when it resubmits a
      string, call again with one frame less of stack; a nested call with
      no stack left overflows. */
  function Run(activation: string -> Step, fuel: nat, val: string): Result<string, Error>
    decreases fuel
  {
    match activation(val)
    case Done(r) => r
    case Resubmit(next) =>
      if fuel == 0 then Failure(StackOverflow) else Run(activation, fuel - 1, next)
  }

  /** `processNode(nodeDesc, val)` with `fuel` nested calls left on the stack. */
  function ProcessNode(rt: Runtime, obfuscator: Option<Obfuscator>, fuel: nat, val: string): Result<string, Error> {
    Run(s => Dispatch(rt, obfuscator, s), fuel, val)
  }

  /** OP_MATCHER yields tag `t` exactly when the string starts with `t:`:
      the six tags begin with six different letters, so the order of the
      alternatives never decides between two of them. */
  lemma MatchOpExact(s: string, t: string)
    ensures MatchOp(s) == Some(t) <==> t in Ops && HasTag(s, t)
  {
    if t in Ops && HasTag(s, t) {
      var r := MatchOp(s);
      assert t[0] == s[0];
      if r.Some? {
        assert r.value[0] == s[0];
      }
    }
  }

  /** A string that does not start with one of the six tags and a colon,
      such as "ABC:DEF:GHI" or a later tag like "HEXSTR:5758595A", is
      returned unchanged. */
  lemma UntaggedUnchanged(rt: Runtime, obfuscator: Option<Obfuscator>, fuel: nat, s: string)
    requires forall t :: t in Ops ==> !HasTag(s, t)
    ensures ProcessNode(rt, obfuscator, fuel, s) == Success(s)
  {
    if s != "" {
      assert MatchOp(s).None?;
    }
  }

  /** "ABC:DEF:GHI" has colons but no directive tag: it passes through. */
  lemma InteriorColonsPassThrough(rt: Runtime, obfuscator: Option<Obfuscator>, fuel: nat)
    ensures ProcessNode(rt, obfuscator, fuel, "ABC:DEF:GHI") == Success("ABC:DEF:GHI")
  {
    var s := "ABC:DEF:GHI";
    forall t | t in Ops ensures !HasTag(s, t) {
      assert (t + ":")[0] == t[0] != s[0];
    }
    UntaggedUnchanged(rt, obfuscator, fuel, s);
  }

  /** The tags of the later API are not directives here: "HEXSTR:5758595A"
      and "B64STR:TU5PUA==" come back unchanged. */
  lemma LaterTagsPassThrough(rt: Runtime, obfuscator: Option<Obfuscator>, fuel: nat)
    ensures ProcessNode(rt, obfuscator, fuel, "HEXSTR:5758595A") == Success("HEXSTR:5758595A")
    ensures ProcessNode(rt, obfuscator, fuel, "B64STR:TU5PUA==") == Success("B64STR:TU5PUA==")
  {
    var h, b := "HEXSTR:5758595A", "B64STR:TU5PUA==";
    forall t | t in Ops ensures !HasTag(h, t) && !HasTag(b, t) {
      if t == "HEX" {
        assert (t + ":")[3] != h[3];
      } else if t == "B64" {
        assert (t + ":")[3] != b[3];
      } else {
        assert (t + ":")[0] != h[0] && (t + ":")[0] != b[0];
      }
    }
    UntaggedUnchanged(rt, obfuscator, fuel, h);
    UntaggedUnchanged(rt, obfuscator, fuel, b);
  }

  /** The empty string is returned as it is, before any matching. */
  lemma EmptyUnchanged(rt: Runtime, obfuscator: Option<Obfuscator>, fuel: nat)
    ensures ProcessNode(rt, obfuscator, fuel, "") == Success("")
  {
  }

  /** RAW returns the whole string, prefix included, and that result is a
      fixpoint: resolving it again gives it back. */
  lemma RawVerbatim(rt: Runtime, obfuscator: Option<Obfuscator>, fuel: nat, s: string)
    requires HasTag(s, "RAW")
    ensures ProcessNode(rt, obfuscator, fuel, s) == Success(s)
    ensures ProcessNode(rt, obfuscator, fuel, ProcessNode(rt, obfuscator, fuel, s).value) == Success(s)
  {
    MatchOpExact(s, "RAW");
  }

  /** HEX and B64 return the UTF-8 text of their decoder's bytes without
      resolving it again, whatever it looks like. HEX decodes the whole string,
      whose first character 'H' is no hex digit, so it always yields the text
      of zero bytes. */
  lemma DecodersTerminal(rt: Runtime, obfuscator: Option<Obfuscator>, fuel: nat, s: string)
    ensures HasTag(s, "HEX") ==> ProcessNode(rt, obfuscator, fuel, s) == Success(rt.utf8Text([]))
    ensures HasTag(s, "B64") ==> ProcessNode(rt, obfuscator, fuel, s) == Success(rt.utf8Text(rt.base64Bytes(s)))
  {
    if HasTag(s, "HEX") {
      assert s[0] == 'H';
    }
    MatchOpExact(s, "HEX");
    MatchOpExact(s, "B64");
  }

  /** OBF with an obfuscator returns its decoding of the whole string,
      without resolving it again. */
  lemma ObfuscatedTerminal(rt: Runtime, c: Obfuscator, fuel: nat, s: string)
    requires HasTag(s, "OBF")
    ensures ProcessNode(rt, Some(c), fuel, s) ==
      if c.decodeString(s).Some? then Success(c.decodeString(s).value) else Failure(ObfuscatorRejected(s))
  {
    MatchOpExact(s, "OBF");
  }

  /** Without an obfuscator every OBF string is refused. */
  lemma ObfuscatorGate(rt: Runtime, fuel: nat, s: string)
    requires HasTag(s, "OBF")
    ensures ProcessNode(rt, None, fuel, s) == Failure(ObfuscatorNotAllowed)
  {
    MatchOpExact(s, "OBF");
  }

  /** ENV looks the WHOLE string up in the environment and resolves what it
      finds, or "" when the variable is unset (so an unset variable yields ""). */
  lemma EnvResolvesLookup(rt: Runtime, obfuscator: Option<Obfuscator>, fuel: nat, s: string)
    requires HasTag(s, "ENV")
    ensures fuel == 0 ==> ProcessNode(rt, obfuscator, fuel, s) == Failure(StackOverflow)
    ensures fuel > 0 && s in rt.env ==>
      ProcessNode(rt, obfuscator, fuel, s) == ProcessNode(rt, obfuscator, fuel - 1, rt.env[s])
    ensures fuel > 0 && s !in rt.env ==> ProcessNode(rt, obfuscator, fuel, s) == Success("")
  {
    MatchOpExact(s, "ENV");
    if fuel > 0 {
      EmptyUnchanged(rt, obfuscator, fuel - 1);
    }
  }

  /** FILE reads the file named by the WHOLE string and resolves its text;
      a file it cannot read is an error. */
  lemma FileResolvesContents(rt: Runtime, obfuscator: Option<Obfuscator>, fuel: nat, s: string)
    requires HasTag(s, "FILE")
    ensures s !in rt.files ==> ProcessNode(rt, obfuscator, fuel, s) == Failure(FileUnreadable(s))
    ensures s in rt.files && fuel == 0 ==> ProcessNode(rt, obfuscator, fuel, s) == Failure(StackOverflow)
    ensures s in rt.files && fuel > 0 ==>
      ProcessNode(rt, obfuscator, fuel, s) == ProcessNode(rt, obfuscator, fuel - 1, rt.files[s])
  {
    MatchOpExact(s, "FILE");
  }

  /** Only ENV and FILE recurse: every other string resolves the same with
      no stack left as with any amount. */
  lemma OnlyEnvAndFileRecurse(rt: Runtime, obfuscator: Option<Obfuscator>, fuel: nat, s: string)
    requires !HasTag(s, "ENV") && !HasTag(s, "FILE")
    ensures ProcessNode(rt, obfuscator, fuel, s) == ProcessNode(rt, obfuscator, 0, s)
  {
    if s != "" && MatchOp(s).Some? {
      MatchOpExact(s, MatchOp(s).value);
    }
  }

  /** The `default` branch ("Unknown op") is never taken: the matcher only
      captures one of the six tags the switch handles. */
  lemma {:induction false} NeverUnknownOp(rt: Runtime, obfuscator: Option<Obfuscator>, fuel: nat, s: string)
    ensures ProcessNode(rt, obfuscator, fuel, s) != Failure(UnknownOp)
    decreases fuel
  {
    if Dispatch(rt, obfuscator, s).Resubmit? && fuel > 0 {
      NeverUnknownOp(rt, obfuscator, fuel - 1, Dispatch(rt, obfuscator, s).next);
    }
  }

  /** More stack never changes a result that did not overflow: the fuel
      stands for the call stack, not for a cut-off of the semantics. */
  lemma {:induction false} MoreStackSameResult(rt: Runtime, obfuscator: Option<Obfuscator>, fuel: nat, more: nat, s: string)
    requires fuel <= more
    requires ProcessNode(rt, obfuscator, fuel, s) != Failure(StackOverflow)
    ensures ProcessNode(rt, obfuscator, more, s) == ProcessNode(rt, obfuscator, fuel, s)
  {
    RunMoreStack(s => Dispatch(rt, obfuscator, s), fuel, more, s);
  }

  lemma {:induction false} RunMoreStack(activation: string -> Step, fuel: nat, more: nat, s: string)
    requires fuel <= more
    requires Run(activation, fuel, s) != Failure(StackOverflow)
    ensures Run(activation, more, s) == Run(activation, fuel, s)
    decreases fuel
  {
    if activation(s).Resubmit? {
      RunMoreStack(activation, fuel - 1, more - 1, activation(s).next);
    }
  }

  /** The obfuscator only adds: whatever resolves while it is absent
      resolves to the same value once it is present. */
  lemma {:induction false} ObfuscatorOnlyAdds(rt: Runtime, c: Obfuscator, fuel: nat, s: string)
    requires ProcessNode(rt, None, fuel, s).Success?
    ensures ProcessNode(rt, Some(c), fuel, s) == ProcessNode(rt, None, fuel, s)
    decreases fuel
  {
    DispatchObfuscatorOnlyAdds(rt, c, s);
    if Dispatch(rt, None, s).Resubmit? && fuel > 0 {
      ObfuscatorOnlyAdds(rt, c, fuel - 1, Dispatch(rt, None, s).next);
    }
  }

  /** One activation: only the `OBF` branch looks at the obfuscator, and
      without one that branch fails. */
  lemma DispatchObfuscatorOnlyAdds(rt: Runtime, c: Obfuscator, s: string)
    ensures Dispatch(rt, None, s) != Done(Failure(ObfuscatorNotAllowed)) ==>
      Dispatch(rt, Some(c), s) == Dispatch(rt, None, s)
  {
  }
}
