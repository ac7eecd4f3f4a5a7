/** The service configuration (internal/service/config.go): validation and the policies of each mode. */
module Config {
  import opened Names

  datatype SeedSource = Unset | Inline | FromEnv | FromFile

  datatype Problem =
    | BadMode | NoSeed | NoActiveEpoch | BadActiveEpoch
    | NoAuthSecret | ShortAuthSecret | KnownAuthSecret | NoStore
    | InlineSeed | MemoryStoreInProduction | NoIssuer | NoAudience | DemoInProduction | NoRedis
    | BadMaxClients | BadExpiration
    | BadEpoch(epoch: string) | DuplicateEpoch(epoch: string) | ActiveNotSupported

  predicate ValidMode(mode: string) {
    mode == "development" || mode == "test" || mode == "production"
  }

  predicate NoDuplicates<T(==)>(s: seq<T>) {
    forall i, j :: 0 <= i < j < |s| ==> s[i] != s[j]
  }

  /** What redemption needs of the epochs: well-formed, distinct, the active one among them. */
  predicate EpochsReady(active: string, supported: seq<string>) {
    && ValidEpoch(active) && active in supported && NoDuplicates(supported)
    && forall i :: 0 <= i < |supported| ==> ValidEpoch(supported[i])
  }

  class Config {
    var mode: string
    var seedLoaded: bool
    var seedSource: SeedSource
    var activeEpoch: string
    var supportedEpochs: seq<string>
    var dst: string
    var authSecret: string
    var jwtIssuer: string
    var jwtAudience: string
    var redisAddr: string
    var redisExpiration: int
    var maxClients: int
    var useMemoryStore: bool
    var useDemo: bool

    /** What production asks for beyond the common requirements. */
    ghost predicate FitForProduction()
      reads this
    {
      && seedSource != Inline && !useMemoryStore && !useDemo
      && |authSecret| >= 32 && authSecret != "super-secret-token" && authSecret != "changeme"
      && jwtIssuer != "" && jwtAudience != "" && redisAddr != ""
      && maxClients > 0 && redisExpiration > 0
    }

    ghost predicate FitForDevelopment()
      reads this
    {
      authSecret != "" && (redisAddr != "" || useMemoryStore)
    }

    /** The configurations that validation accepts, before it fills in defaults. */
    ghost predicate Acceptable()
      reads this
    {
      && ValidMode(mode) && seedLoaded && ValidEpoch(activeEpoch)
      && (if mode == "production" then FitForProduction() else FitForDevelopment())
      && (forall i :: 0 <= i < |supportedEpochs| ==> ValidEpoch(supportedEpochs[i]))
      && NoDuplicates(supportedEpochs)
      && (supportedEpochs == [] || activeEpoch in supportedEpochs)
    }

    method IsEpochSupported(epoch: string) returns (yes: bool)
      ensures yes <==> epoch in supportedEpochs
    {
      for i := 0 to |supportedEpochs|
        invariant epoch !in supportedEpochs[..i]
      {
        if supportedEpochs[i] == epoch {
          return true;
        }
        assert supportedEpochs[..i + 1] == supportedEpochs[..i] + [supportedEpochs[i]];
      }
      assert supportedEpochs[..|supportedEpochs|] == supportedEpochs;
      return false;
    }

    method ValidateProduction(errs: seq<Problem>) returns (errs': seq<Problem>)
      ensures errs' == [] <==> errs == [] && FitForProduction()
    {
      errs' := errs;
      if seedSource == Inline { errs' := errs' + [InlineSeed]; }
      if useMemoryStore { errs' := errs' + [MemoryStoreInProduction]; }
      if authSecret == "" {
        errs' := errs' + [NoAuthSecret];
      } else {
        if |authSecret| < 32 { errs' := errs' + [ShortAuthSecret]; }
        if authSecret == "super-secret-token" || authSecret == "changeme" { errs' := errs' + [KnownAuthSecret]; }
      }
      if jwtIssuer == "" { errs' := errs' + [NoIssuer]; }
      if jwtAudience == "" { errs' := errs' + [NoAudience]; }
      if useDemo { errs' := errs' + [DemoInProduction]; }
      if redisAddr == "" { errs' := errs' + [NoRedis]; }
      if maxClients <= 0 { errs' := errs' + [BadMaxClients]; }
      if redisExpiration <= 0 { errs' := errs' + [BadExpiration]; }
    }

    method ValidateNonProduction(errs: seq<Problem>) returns (errs': seq<Problem>)
      modifies this`dst, this`maxClients, this`redisExpiration
      ensures errs' == [] <==> errs == [] && FitForDevelopment()
      ensures maxClients == (if old(maxClients) <= 0 then 100000 else old(maxClients))
      ensures redisExpiration == (if old(redisExpiration) <= 0 then 2592000 else old(redisExpiration))
      ensures dst == if old(dst) == "" then "BCIS-V1-MESSAGE" else old(dst)
    {
      errs' := errs;
      if authSecret == "" { errs' := errs' + [NoAuthSecret]; }
      if redisAddr == "" && !useMemoryStore { errs' := errs' + [NoStore]; }
      if dst == "" { dst := "BCIS-V1-MESSAGE"; }
      if maxClients <= 0 { maxClients := 100000; }
      if redisExpiration <= 0 { redisExpiration := 2592000; }
    }

    /** The loop over the epoch list with its map of epochs seen. */
    method ValidateEpochs(errs: seq<Problem>) returns (errs': seq<Problem>)
      ensures errs' == [] <==>
        (errs == [] && NoDuplicates(supportedEpochs) && forall i :: 0 <= i < |supportedEpochs| ==> ValidEpoch(supportedEpochs[i]))
    {
      errs' := errs;
      var seen: set<string> := {};
      for i := 0 to |supportedEpochs|
        invariant forall e :: e in seen <==> exists k :: 0 <= k < i && supportedEpochs[k] == e
        invariant errs' == [] <==>
          (&& errs == []
           && (forall k :: 0 <= k < i ==> ValidEpoch(supportedEpochs[k]))
           && (forall k, l :: 0 <= k < l < i ==> supportedEpochs[k] != supportedEpochs[l]))
      {
        var e := supportedEpochs[i];
        if !ValidEpoch(e) { errs' := errs' + [BadEpoch(e)]; }
        if e in seen { errs' := errs' + [DuplicateEpoch(e)]; }
        seen := seen + {e};
      }
    }

    /** What every mode requires. */
    method ValidateCommon() returns (errs: seq<Problem>)
      ensures errs == [] <==> ValidMode(mode) && seedLoaded && ValidEpoch(activeEpoch)
    {
      errs := [];
      if !ValidMode(mode) { errs := errs + [BadMode]; }
      if !seedLoaded { errs := errs + [NoSeed]; }
      if activeEpoch == "" {
        errs := errs + [NoActiveEpoch];
      } else if !ValidEpoch(activeEpoch) {
        errs := errs + [BadActiveEpoch];
      }
    }

    /** The epoch list: its default, its entries, and the active epoch among them. */
    method ValidateEpochList(errs: seq<Problem>) returns (errs': seq<Problem>)
      modifies this`supportedEpochs
      ensures supportedEpochs == if old(supportedEpochs) == [] && activeEpoch != "" then [activeEpoch] else old(supportedEpochs)
      ensures errs == [] && ValidEpoch(activeEpoch) ==> (errs' == [] <==> EpochsReady(activeEpoch, supportedEpochs))
      ensures errs != [] ==> errs' != []
    {
      if |supportedEpochs| == 0 && activeEpoch != "" {
        supportedEpochs := [activeEpoch];
      }
      errs' := ValidateEpochs(errs);
      if activeEpoch != "" {
        var listed := IsEpochSupported(activeEpoch);
        if !listed { errs' := errs' + [ActiveNotSupported]; }
      }
    }

    /**
      Validation succeeds on exactly the acceptable configurations, and leaves one in which the
      active epoch is among the supported ones, these are well-formed and distinct, and the limits
      are positive.
     */
    method Validate() returns (errs: seq<Problem>)
      modifies this`dst, this`maxClients, this`redisExpiration, this`supportedEpochs
      ensures errs == [] <==> old(Acceptable())
      ensures errs == [] ==> EpochsReady(activeEpoch, supportedEpochs) && maxClients > 0 && redisExpiration > 0
      ensures supportedEpochs == if old(supportedEpochs) == [] && activeEpoch != "" then [activeEpoch] else old(supportedEpochs)
      ensures mode == "production" || !ValidMode(mode) ==>
        maxClients == old(maxClients) && redisExpiration == old(redisExpiration) && dst == old(dst)
      ensures mode == "development" || mode == "test" ==>
        && maxClients == (if old(maxClients) <= 0 then 100000 else old(maxClients))
        && redisExpiration == (if old(redisExpiration) <= 0 then 2592000 else old(redisExpiration))
        && dst == (if old(dst) == "" then "BCIS-V1-MESSAGE" else old(dst))
    {
      errs := ValidateCommon();
      if mode == "production" {
        errs := ValidateProduction(errs);
      } else if mode == "development" || mode == "test" {
        errs := ValidateNonProduction(errs);
      }
      errs := ValidateEpochList(errs);
    }
  }

  /** What validation asks for in each mode, item by item. */
  lemma AcceptableExact(c: Config)
    ensures c.Acceptable() <==>
      && c.seedLoaded && ValidEpoch(c.activeEpoch)
      && (c.supportedEpochs == [] || EpochsReady(c.activeEpoch, c.supportedEpochs))
      && ((c.mode == "production"
           && c.seedSource != Inline && !c.useMemoryStore && !c.useDemo
           && |c.authSecret| >= 32 && c.authSecret !in ["super-secret-token", "changeme"]
           && c.jwtIssuer != "" && c.jwtAudience != "" && c.redisAddr != "" && c.maxClients >= 1 && c.redisExpiration >= 1)
          || (c.mode in ["development", "test"] && c.authSecret != "" && (c.redisAddr != "" || c.useMemoryStore)))
  {
    assert "production" != "development" && "production" != "test";
  }
}
