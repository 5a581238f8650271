/** Validation of a whole request: system, instance, command, types, parameters. */
module RequestEntry {
  import opened Wrappers
  import opened RequestModel
  import opened RequestValidator
  import opened RequestConformance
  import opened RequestLaws
  import opened RequestRevalidation

  datatype Command = Command(name: string, commandType: string, outputType: string, parameters: seq<Parameter>)

  datatype System = System(instanceNames: seq<string>, commands: seq<Command>)

  class Request {
    const instanceName: string
    const command: Option<string>
    var commandType: Option<string>
    var outputType: Option<string>
    var parameters: Entries

    constructor (instanceName: string, command: Option<string>, commandType: Option<string>, outputType: Option<string>,
        parameters: Entries)
      ensures this.instanceName == instanceName && this.command == command
      ensures this.commandType == commandType && this.outputType == outputType && this.parameters == parameters
    {
      this.instanceName, this.command := instanceName, command;
      this.commandType, this.outputType, this.parameters := commandType, outputType, parameters;
    }
  }

  /** c is the first command of that name. */
  ghost predicate IsFirstNamed(commands: seq<Command>, name: string, c: Command) {
    exists i :: 0 <= i < |commands| && commands[i] == c && c.name == name && forall j | 0 <= j < i ::
        commands[j].name != name
  }

  predicate Fits(given: Option<string>, declared: string) {
    given.None? || given.value == declared
  }

  /** The command a request of this shape is for, if there is one. */
  ghost predicate Addresses(found: Option<System>, instanceName: string, command: Option<string>, c: Command) {
    found.Some? && instanceName in found.value.instanceNames && command.Some?
        && IsFirstNamed(found.value.commands, command.value, c)
  }

  method GetAndValidateCommand(request: Request, found: Option<System>) returns (r: Result<Command, Error>)
    modifies request
    ensures request.parameters == old(request.parameters)
    ensures r.Ok? <==> exists c :: Addresses(found, request.instanceName, request.command, c)
                                   && Fits(old(request.commandType), c.commandType)
                                       && Fits(old(request.outputType), c.outputType)
    ensures r.Ok? ==> Addresses(found, request.instanceName, request.command, r.value)
                      && request.commandType == Some(r.value.commandType)
                          && request.outputType == Some(r.value.outputType)
    ensures r.Ok? ==>
              && found.Some? && request.instanceName in found.value.instanceNames
              && request.command == Some(r.value.name) && r.value in found.value.commands
    ensures found.Some? && request.instanceName in found.value.instanceNames && request.command.Some? ==>
              forall i | 0 <= i < |found.value.commands| && found.value.commands[i].name == request.command.value
                         && forall j | 0 <= j < i :: found.value.commands[j].name != request.command.value ::
                r.Ok? <==> && old(request.commandType) in {None, Some(found.value.commands[i].commandType)}
                           && old(request.outputType) in {None, Some(found.value.commands[i].outputType)}
    ensures r.Err? ==> r.error == ModelValidation
    ensures old(request.commandType).Some? ==> request.commandType == old(request.commandType)
    ensures old(request.outputType).Some? ==> request.outputType == old(request.outputType)
  {
    if found.None? || request.instanceName !in found.value.instanceNames || request.command.None? {
      return Err(ModelValidation);
    }
    var commands, name := found.value.commands, request.command.value;
    for i := 0 to |commands|
      invariant forall j | 0 <= j < i :: commands[j].name != name
      invariant request.commandType == old(request.commandType) && request.outputType == old(request.outputType)
    {
      var command := commands[i];
      if command.name == name {
        assert IsFirstNamed(commands, name, command);
        if request.commandType.None? {
          request.commandType := Some(command.commandType);
        } else if request.commandType.value != command.commandType {
          return Err(ModelValidation);
        }
        if request.outputType.None? {
          request.outputType := Some(command.outputType);
        } else if request.outputType.value != command.outputType {
          return Err(ModelValidation);
        }
        return Ok(command);
      }
    }
    return Err(ModelValidation);
  }

  /** validate_request: on success the parameters are replaced by what they conform to; a rejected
      request keeps its parameters. */
  method ValidateRequest(request: Request, found: Option<System>, lib: Library) returns (r: Result<Command, Error>)
    modifies request
    ensures r.Ok? ==> Addresses(found, request.instanceName, request.command, r.value)
                      && request.commandType == Some(r.value.commandType)
                          && request.outputType == Some(r.value.outputType)
                      && Conforms(Context(request.instanceName, old(request.parameters), lib), r.value.parameters,
                                  old(request.parameters), request.parameters)
    ensures r.Err? ==> request.parameters == old(request.parameters)
    ensures r.Err? ==> forall c, result ::
              Addresses(found, request.instanceName, request.command, c)
              && Fits(old(request.commandType), c.commandType) && Fits(old(request.outputType), c.outputType) ==>
                !Conforms(Context(request.instanceName, request.parameters, lib), c.parameters, request.parameters,
                    result)
  {
    r := GetAndValidateCommand(request, found);
    if r.Err? {
      return;
    }
    var ctx, params, schema := Context(request.instanceName, request.parameters, lib), request.parameters,
        r.value.parameters;
    var validated := GetAndValidateParameters(ctx, schema, params);
    forall result ensures validated == Ok(result) <==> Conforms(ctx, schema, params, result) {
      ValidateIsExact(ctx, schema, params, result);
    }
    match validated {
      case Ok(entries) => request.parameters := entries;
      case Err(e) => r := Err(e);
    }
  }

  /** A request that was accepted once, for a command whose parameters have distinct keys, is accepted
      again for the same command and does not change, exactly when the stored values are still in the
      entries that the stored request selects. Otherwise it is rejected and does not change either. */
  method ValidateTwice(request: Request, found: Option<System>, lib: Library)
      returns (first: Result<Command, Error>, second: Result<Command, Error>)
    requires forall c | Addresses(found, request.instanceName, request.command, c) :: DistinctEverywhere(c.parameters)
    modifies request
    ensures first.Ok? ==> Conforms(Context(request.instanceName, old(request.parameters), lib), first.value.parameters,
                                   old(request.parameters), request.parameters)
    ensures first.Ok? ==> (second == first
        <==> StillListed(request.parameters, first.value.parameters, request.parameters))
    ensures first.Ok? ==> second == first || second.Err?
  {
    first := ValidateRequest(request, found, lib);
    ghost var before, stored := old(request.parameters), request.parameters;
    ghost var ctx := Context(request.instanceName, before, lib);
    second := ValidateRequest(request, found, lib);
    if first.Ok? {
      var schema := first.value.parameters;
      ghost var again := Context(request.instanceName, stored, lib);
      ValidateIsExact(ctx, schema, before, stored);
      RevalidatesExactly(ctx, schema, before);
      assert ctx.(parameters := stored) == again;
      ValidateIsExact(again, schema, stored, stored);
      if second.Ok? {
        ValidateIsExact(again, schema, stored, request.parameters);
      }
    }
  }
}
