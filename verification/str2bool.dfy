/** `str2bool`, the argparse converter for boolean flags: a bool passes through, a string
    is matched case-insensitively against two fixed token lists, any other string is an
    `ArgumentTypeError`. Lower-casing is ASCII lower-casing. */
module Str2Bool {
  import opened Wrappers

  /** The converter's argument. argparse passes only the command-line text (`StringArg`);
      `BoolArg` is the bool branch that direct callers can reach. */
  datatype Arg = BoolArg(b: bool) | StringArg(s: string)

  /** `argparse.ArgumentTypeError` with its message. */
  datatype ArgumentTypeError = ArgumentTypeError(message: string)

  const TrueTokens: seq<string> := ["yes", "true", "t", "y", "1"]
  const FalseTokens: seq<string> := ["no", "false", "f", "n", "0"]
  const Expected: string := "Boolean value expected."

  predicate IsUpper(c: char) {
    'A' <= c <= 'Z'
  }

  /** ASCII `str.lower` on one character. */
  function LowerChar(c: char): (l: char)
    ensures IsUpper(c) ==> l as int == c as int + 32
    ensures !IsUpper(c) ==> l == c
    ensures !IsUpper(l)
  {
    if IsUpper(c) then (c as int - 'A' as int + 'a' as int) as char else c
  }

  /** ASCII `str.lower`: the same length, each character lower-cased. */
  function Lower(s: string): (r: string)
    ensures |r| == |s|
    ensures forall i :: 0 <= i < |s| ==> r[i] == LowerChar(s[i])
  {
    if |s| == 0 then [] else [LowerChar(s[0])] + Lower(s[1..])
  }

  /** `s` spells `token` up to letter case. */
  predicate MatchesIgnoringCase(s: string, token: string) {
    |s| == |token| && forall i :: 0 <= i < |s| ==> LowerChar(s[i]) == LowerChar(token[i])
  }

  /** Lower-casing is idempotent. */
  lemma LowerIdempotent(s: string)
    ensures Lower(Lower(s)) == Lower(s)
  {
  }

  /** Two strings spell the same thing up to letter case exactly when their lower-cased forms agree. */
  lemma MatchesIffSameLower(s: string, t: string)
    ensures MatchesIgnoringCase(s, t) <==> Lower(s) == Lower(t)
  {
    if Lower(s) == Lower(t) {
      assert forall i :: 0 <= i < |s| ==> Lower(s)[i] == Lower(t)[i];
    }
  }

  /** `str2bool(v)`: a bool is returned as it is; a string is lower-cased and looked up in
      the true tokens, then the false tokens; a string in neither raises the error. */
  function Str2Bool(v: Arg): (r: Result<bool, ArgumentTypeError>)
    ensures v.BoolArg? ==> r == Success(v.b)
    ensures r.Failure? ==> r.error == ArgumentTypeError(Expected)
  {
    match v
    case BoolArg(b) => Success(b)
    case StringArg(s) =>
      if Lower(s) in TrueTokens then Success(true)
      else if Lower(s) in FalseTokens then Success(false)
      else Failure(ArgumentTypeError(Expected))
  }

  /** A string without upper-case letters is its own lower-cased form. */
  lemma LowerKeepsLowerCase(s: string)
    requires forall i :: 0 <= i < |s| ==> !IsUpper(s[i])
    ensures Lower(s) == s
  {
    assert forall i :: 0 <= i < |s| ==> Lower(s)[i] == s[i];
  }

  /** Every token is already lower case, so it is its own lower-cased form. */
  lemma TokensAreLowerCase(t: string)
    requires t in TrueTokens || t in FalseTokens
    ensures Lower(t) == t
  {
    assert forall i :: 0 <= i < |t| ==> !IsUpper(t[i]);
    LowerKeepsLowerCase(t);
  }

  /** A string converts to true exactly when it spells one of the true tokens up to case. */
  lemma TrueIffTrueToken(s: string)
    ensures Str2Bool(StringArg(s)) == Success(true) <==>
      exists t :: t in TrueTokens && MatchesIgnoringCase(s, t)
  {
    if Str2Bool(StringArg(s)) == Success(true) {
      var t := Lower(s);
      TokensAreLowerCase(t);
      MatchesIffSameLower(s, t);
    }
    if t :| t in TrueTokens && MatchesIgnoringCase(s, t) {
      TokensAreLowerCase(t);
      MatchesIffSameLower(s, t);
    }
  }

  /** A string converts to false exactly when it spells one of the false tokens up to case. */
  lemma FalseIffFalseToken(s: string)
    ensures Str2Bool(StringArg(s)) == Success(false) <==>
      exists t :: t in FalseTokens && MatchesIgnoringCase(s, t)
  {
    if Str2Bool(StringArg(s)) == Success(false) {
      var t := Lower(s);
      TokensAreLowerCase(t);
      MatchesIffSameLower(s, t);
    }
    if t :| t in FalseTokens && MatchesIgnoringCase(s, t) {
      TokensAreLowerCase(t);
      MatchesIffSameLower(s, t);
      assert Lower(s) !in TrueTokens;
    }
  }

  /** A string that spells no token is rejected with the argparse error. */
  lemma RejectsOtherStrings(s: string)
    ensures Str2Bool(StringArg(s)) == Failure(ArgumentTypeError(Expected)) <==>
      forall t :: t in TrueTokens + FalseTokens ==> !MatchesIgnoringCase(s, t)
  {
    TrueIffTrueToken(s);
    FalseIffFalseToken(s);
  }

  /** No string spells both a true and a false token, so no input could be read both ways. */
  lemma TokenListsDisjoint(s: string)
    ensures !((exists t :: t in TrueTokens && MatchesIgnoringCase(s, t)) &&
              (exists t :: t in FalseTokens && MatchesIgnoringCase(s, t)))
  {
    TrueIffTrueToken(s);
    FalseIffFalseToken(s);
  }

  /** Strings that differ only in letter case convert alike. */
  lemma CaseInsensitive(s: string, s': string)
    requires MatchesIgnoringCase(s, s')
    ensures Str2Bool(StringArg(s)) == Str2Bool(StringArg(s'))
  {
    MatchesIffSameLower(s, s');
  }

  /** Feeding an accepted result back in returns it unchanged. */
  lemma Idempotent(v: Arg)
    requires Str2Bool(v).Success?
    ensures Str2Bool(BoolArg(Str2Bool(v).value)) == Str2Bool(v)
  {
  }
}
