/**
 * The game's configuration (game/src/configuration/mod.rs): the models, entities and cameras a
 * level starts with, and the rule that a configuration naming two models alike is refused in
 * favour of the empty default. Opening the file and parsing RON are outside the model: their
 * outcome is an input.
 */
module Configuration {

  datatype Vec3 = Vec3(x: real, y: real, z: real)

  datatype Camera = Follow | Freelook(position: Vec3, direction: Vec3)

  datatype Model = Model(name: string, location: string)

  datatype Entity =
    | Player(modelName: string, startPosition: Vec3, maxVelocity: real)
    | Static(modelName: string, startPosition: Vec3)

  datatype Config = Config(models: seq<Model>, entities: seq<Entity>, cameras: seq<Camera>)

  /** `Config::default`: no models, no entities, no cameras. */
  function Default(): (c: Config)
    ensures NamesUnique(c.models)
  {
    Config([], [], [])
  }

  /** No two models of the list carry the same name. */
  predicate NamesUnique(models: seq<Model>)
  {
    forall i, j | 0 <= i < j < |models| :: models[i].name != models[j].name
  }

  /** The default configuration is empty, and so trivially valid. */
  lemma DefaultIsValid()
    ensures Default().models == [] && Default().entities == [] && Default().cameras == []
    ensures NamesUnique(Default().models)
  {
  }

  /**
   * `is_valid`: walks the models in order, collecting their names, and stops at the first name
   * already collected. It holds exactly when the model names are pairwise distinct, whatever
   * the entities and cameras are.
   */
  method IsValid(config: Config) returns (ok: bool)
    ensures ok <==> NamesUnique(config.models)
  {
    var models := config.models;
    var uniq: set<string> := {};
    for i := 0 to |models|
      invariant forall a, b | 0 <= a < b < i :: models[a].name != models[b].name
      invariant forall a | 0 <= a < i :: models[a].name in uniq
      invariant forall n | n in uniq :: exists a | 0 <= a < i :: models[a].name == n
    {
      var name := models[i].name;
      if name in uniq {
        var a :| 0 <= a < i && models[a].name == name;
        assert !NamesUnique(models) by {
          assert models[a].name == models[i].name;
        }
        return false;
      }
      uniq := uniq + {name};
    }
    return true;
  }

  /** What opening and parsing the configuration file produced. */
  datatype LoadOutcome = OpenFailed | ParseFailed | Parsed(config: Config)

  /**
   * The decision of `load_config`: a parsed configuration is used when it is valid; an invalid
   * one, a parse failure and an open failure all give the default. What it returns is always valid.
   */
  method LoadConfig(outcome: LoadOutcome) returns (config: Config)
    ensures outcome.Parsed? && NamesUnique(outcome.config.models) ==> config == outcome.config
    ensures !(outcome.Parsed? && NamesUnique(outcome.config.models)) ==> config == Default()
    ensures NamesUnique(config.models)
  {
    match outcome {
      case Parsed(parsed) =>
        var ok := IsValid(parsed);
        if ok {
          config := parsed;
        } else {
          config := Default();
        }
      case ParseFailed =>
        config := Default();
      case OpenFailed =>
        config := Default();
    }
  }
}
