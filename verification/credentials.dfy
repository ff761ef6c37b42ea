/** Where the sign-in takes its username and password from (auth.ts). */
module Credentials {
  import opened Js

  datatype Credentials = Credentials(username: string, password: string)

  /** The two places a username/password pair can come from. */
  datatype Source = CommandLine | Environment

  /** The choice made: a pair and its source, or the configuration error. */
  datatype Selection =
    | Selected(creds: Credentials, source: Source)
    | MissingCredentials

  /** The `VERACODE_USERNAME` and `VERACODE_PASSWORD` environment variables, each possibly unset. */
  datatype Env = Env(username: Maybe<string>, password: Maybe<string>)

  /** `process.argv[i]`: `undefined` (which `!= null` rejects) past the end of the argument vector. */
  function Arg(argv: seq<string>, i: nat): Maybe<string>
  {
    if i < |argv| then Defined(argv[i]) else Undefined
  }

  /**
   * The three-way choice: both positional arguments win, even over a complete
   * environment; otherwise both environment variables; otherwise the
   * configuration error. Empty strings are not `null`, so they are accepted.
   */
  function SelectCredentials(argv: seq<string>, env: Env): (s: Selection)
    ensures |argv| >= 4 ==> s == Selected(Credentials(argv[2], argv[3]), CommandLine)
    ensures s.Selected? && s.source == CommandLine ==> |argv| >= 4
    ensures (s.Selected? && s.source == Environment) ==>
              |argv| < 4 && env.username == Defined(s.creds.username) && env.password == Defined(s.creds.password)
    ensures s.MissingCredentials? <==> |argv| < 4 && (env.username.Undefined? || env.password.Undefined?)
  {
    if Arg(argv, 2).Defined? && Arg(argv, 3).Defined? then
      Selected(Credentials(Arg(argv, 2).value, Arg(argv, 3).value), CommandLine)
    else if env.username.Defined? && env.password.Defined? then
      Selected(Credentials(env.username.value, env.password.value), Environment)
    else
      MissingCredentials
  }
}
