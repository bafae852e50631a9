/** The two command builders of the package managers the deployer drives,
    `npm` and `pnpm`. Builder calls push words onto `commands` or `args` and
    return the builder itself; `run` removes the first command and spawns it
    with the remaining commands followed by the arguments. Only the process
    invocation is modelled, not the process. */
module PackageManager {
  import opened Wrappers

  datatype Platform = Win32 | OtherPlatform

  /** The program, argument vector and options handed to the spawn helper. */
  datatype Spawn = Spawn(program: string, argv: seq<string>, cwd: string, shell: bool)

  class NPM {
    const packagePath: string
    var commands: seq<string>
    var args: seq<string>

    constructor (packagePath: string)
      ensures this.packagePath == packagePath
      ensures commands == ["npm"] && args == []
    {
      this.packagePath := packagePath;
      commands := ["npm"];
      args := [];
    }

    method Install() returns (self: NPM)
      modifies this
      ensures self == this
      ensures commands == old(commands) + ["install"] && args == old(args)
    {
      commands := commands + ["install"];
      self := this;
    }

    method RunCommand() returns (self: NPM)
      modifies this
      ensures self == this
      ensures commands == old(commands) + ["run"] && args == old(args)
    {
      commands := commands + ["run"];
      self := this;
    }

    method Build() returns (self: NPM)
      modifies this
      ensures self == this
      ensures commands == old(commands) + ["build"] && args == old(args)
    {
      commands := commands + ["build"];
      self := this;
    }

    /** The `publish()` step every package-manager controller declares; this
        builder lacks it in the source. */
    method Publish() returns (self: NPM)
      modifies this
      ensures self == this
      ensures commands == old(commands) + ["publish"] && args == old(args)
    {
      commands := commands + ["publish"];
      self := this;
    }

    method NoPackageLock() returns (self: NPM)
      modifies this
      ensures self == this
      ensures args == old(args) + ["--no-package-lock"] && commands == old(commands)
    {
      args := args + ["--no-package-lock"];
      self := this;
    }

    /** Shifts the first command off and spawns it; a shell is used only on
        Windows. With no command left, or an empty first command, it throws. */
    method Run(platform: Platform) returns (r: Result<Spawn, string>)
      modifies this
      ensures args == old(args)
      ensures old(commands) == [] ==> r == Failure("No first command?") && commands == []
      ensures old(commands) != [] ==> commands == old(commands)[1..]
      ensures old(commands) != [] && old(commands)[0] == "" ==> r == Failure("No first command?")
      ensures old(commands) != [] && old(commands)[0] != "" ==>
        r == Success(Spawn(old(commands)[0], commands + args, packagePath, platform == Win32))
    {
      if commands == [] {
        return Failure("No first command?");
      }
      var first := commands[0];
      commands := commands[1..];
      if first == "" {
        return Failure("No first command?");
      }
      r := Success(Spawn(first, commands + args, packagePath, platform == Win32));
    }
  }

  class PNPM {
    const packagePath: string
    var commands: seq<string>
    var args: seq<string>

    constructor (packagePath: string)
      ensures this.packagePath == packagePath
      ensures commands == ["pnpm"] && args == []
    {
      this.packagePath := packagePath;
      commands := ["pnpm"];
      args := [];
    }

    method Install() returns (self: PNPM)
      modifies this
      ensures self == this
      ensures commands == old(commands) + ["install"] && args == old(args)
    {
      commands := commands + ["install"];
      self := this;
    }

    method RunCommand() returns (self: PNPM)
      modifies this
      ensures self == this
      ensures commands == old(commands) + ["run"] && args == old(args)
    {
      commands := commands + ["run"];
      self := this;
    }

    method Build() returns (self: PNPM)
      modifies this
      ensures self == this
      ensures commands == old(commands) + ["build"] && args == old(args)
    {
      commands := commands + ["build"];
      self := this;
    }

    /** The `publish()` step every package-manager controller declares; this
        builder lacks it in the source. */
    method Publish() returns (self: PNPM)
      modifies this
      ensures self == this
      ensures commands == old(commands) + ["publish"] && args == old(args)
    {
      commands := commands + ["publish"];
      self := this;
    }

    /** pnpm's counterpart of npm's `--no-package-lock`. */
    method NoPackageLock() returns (self: PNPM)
      modifies this
      ensures self == this
      ensures args == old(args) + ["--frozen-lockfile"] && commands == old(commands)
    {
      args := args + ["--frozen-lockfile"];
      self := this;
    }

    method Run(platform: Platform) returns (r: Result<Spawn, string>)
      modifies this
      ensures args == old(args)
      ensures old(commands) == [] ==> r == Failure("No first command defined for PNPM.") && commands == []
      ensures old(commands) != [] ==> commands == old(commands)[1..]
      ensures old(commands) != [] && old(commands)[0] == "" ==> r == Failure("No first command defined for PNPM.")
      ensures old(commands) != [] && old(commands)[0] != "" ==>
        r == Success(Spawn(old(commands)[0], commands + args, packagePath, platform == Win32))
    {
      if commands == [] {
        return Failure("No first command defined for PNPM.");
      }
      var first := commands[0];
      commands := commands[1..];
      if first == "" {
        return Failure("No first command defined for PNPM.");
      }
      r := Success(Spawn(first, commands + args, packagePath, platform == Win32));
    }
  }
}
