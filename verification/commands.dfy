/**
 * The command table (`Command` and `CommandList` in smgr.rb): each command
 * accepts a range of argument counts and hands its arguments, or nil where
 * one is missing, to the module that carries it out.
 */
module Commands {
  import opened Outcomes

  datatype CommandName = InstallCommand | ListCommand | RemoveCommand | LinkCommand

  /** The accepted argument counts, `min..max` inclusive, as `CommandList.create` sets them. */
  function Arity(c: CommandName): (range: (nat, nat))
    ensures range.0 <= range.1 <= 2
  {
    match c
    case InstallCommand => (1, 1)
    case ListCommand => (0, 1)
    case RemoveCommand => (1, 1)
    case LinkCommand => (1, 2)
  }

  /** The call a command's block makes, with `args[i]` or nil for each parameter. */
  datatype Call =
    | InstallCall(pkg: string)
    | ListCall(name: Option<string>)
    | RemoveCall(name: Option<string>)
    | LinkCall(name: Option<string>, destDir: Option<string>)

  /** `args[i]` in Ruby: nil past the end. */
  function Arg(args: seq<string>, i: nat): (r: Option<string>)
    ensures r.Some? <==> i < |args|
    ensures r.Some? ==> r.value == args[i]
  {
    if i < |args| then Some(args[i]) else None
  }

  /** `Command#execute(args)`: the usage error unless the count is in range, the call otherwise. */
  function Execute(c: CommandName, args: seq<string>): (r: Result<Call>)
    ensures r.Err? <==> !(Arity(c).0 <= |args| <= Arity(c).1)
    ensures r.Err? ==> r.error == Usage
    ensures r.Ok? ==> match r.value
      case InstallCall(pkg) => c == InstallCommand && [pkg] == args
      case ListCall(name) => c == ListCommand && (name.Some? <==> args != []) && (name.Some? ==> [name.value] == args)
      case RemoveCall(name) => c == RemoveCommand && name == Some(args[0]) && |args| == 1
      case LinkCall(name, dest) => c == LinkCommand && name == Some(args[0]) && dest == Arg(args, 1)
  {
    if !(Arity(c).0 <= |args| <= Arity(c).1) then Err(Usage)
    else match c
      case InstallCommand => Ok(InstallCall(args[0]))
      case ListCommand => Ok(ListCall(Arg(args, 0)))
      case RemoveCommand => Ok(RemoveCall(Arg(args, 0)))
      case LinkCommand => Ok(LinkCall(Arg(args, 0), Arg(args, 1)))
  }

  /** Every argument a command accepts reaches its call, in order, and nothing else does. */
  lemma ExecuteKeepsArguments(c: CommandName, args: seq<string>)
    requires Execute(c, args).Ok?
    ensures Arguments(Execute(c, args).value) == args
  {
  }

  /** The arguments a call carries, nil ones dropped. */
  function Arguments(call: Call): seq<string>
  {
    match call
    case InstallCall(pkg) => [pkg]
    case ListCall(name) => Present(name)
    case RemoveCall(name) => Present(name)
    case LinkCall(name, dest) => Present(name) + Present(dest)
  }

  function Present(o: Option<string>): seq<string>
  {
    if o.Some? then [o.value] else []
  }

  /** The usage errors of each command. */
  lemma UsageCases(a: string, b: string)
    ensures Execute(InstallCommand, []) == Err(Usage) && Execute(InstallCommand, [a, b]) == Err(Usage)
    ensures Execute(ListCommand, []) == Ok(ListCall(None)) && Execute(ListCommand, [a, b]) == Err(Usage)
    ensures Execute(RemoveCommand, []) == Err(Usage) && Execute(RemoveCommand, [a]) == Ok(RemoveCall(Some(a)))
    ensures Execute(LinkCommand, [a]) == Ok(LinkCall(Some(a), None)) && Execute(LinkCommand, [a, b, a]) == Err(Usage)
  {
  }
}
