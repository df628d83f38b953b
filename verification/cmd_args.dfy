/** The command line: the program takes exactly one argument, the path of its config file. */
module CmdArgs {
  import opened Wrappers

  datatype ArgsError = IncorrectArgs

  /**
   * `config_yaml`, given the argument list (the binary's name first): the config path
   * when exactly one argument follows the binary's name, `IncorrectArgs` otherwise.
   */
  function ConfigYaml(args: seq<string>): (r: Result<string, ArgsError>)
    ensures r.Success? <==> |args| == 2
    ensures r.Success? ==> r.value == args[1]
    ensures r.Failure? ==> r.error == IncorrectArgs
  {
    if |args| != 2 then Failure(IncorrectArgs) else Success(args[1])
  }

  /** The binary's name never changes the outcome. */
  lemma BinaryNameIgnored(bin1: string, bin2: string, rest: seq<string>)
    ensures ConfigYaml([bin1] + rest) == ConfigYaml([bin2] + rest)
  {
  }

  lemma ConfigYamlExamples()
    ensures ConfigYaml(["test_binary", "/path/to/config.yaml"]) == Success("/path/to/config.yaml")
    ensures ConfigYaml(["test_binary"]) == Failure(IncorrectArgs)
    ensures ConfigYaml(["test_binary", "/path/to/config.yaml", "extra_arg"]) == Failure(IncorrectArgs)
    ensures ConfigYaml([]) == Failure(IncorrectArgs)
  {
  }
}
