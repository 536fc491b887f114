/** The in-memory settings holder of server/storage.ts. */
module Storage {
  import opened Wrappers
  import opened Schema

  /** `MemStorage`: one field, initialised to a copy of the defaults and
      overwritten by `setDomainSettings`. Settings are values here, so the
      copy made by the object spread is implicit. */
  class MemStorage {
    var domainSettings: DomainSettings

    constructor ()
      ensures domainSettings == DefaultDomainSettings
    {
      domainSettings := DefaultDomainSettings;
    }

    /** Returns the stored settings; changes nothing. */
    method GetDomainSettings() returns (settings: DomainSettings)
      ensures settings == domainSettings
    {
      settings := domainSettings;
    }

    /** Stores `settings` as given; no schema check is made. */
    method SetDomainSettings(settings: DomainSettings)
      modifies this
      ensures domainSettings == settings
    {
      domainSettings := settings;
    }
  }

  /** A fresh store reports the default settings, field for field. */
  method FreshStorageHoldsDefaults() returns (settings: DomainSettings)
    ensures settings.moviesDriveDomain == "moviesdrive.forum"
    ensures settings.hubcloudDomain == "hubcloud.foo"
    ensures settings.mdrivePattern == "mdrive.today"
  {
    var store := new MemStorage();
    settings := store.GetDomainSettings();
  }

  /** Reading twice gives the same value: the getter leaves the state alone. */
  method GetIsStable(store: MemStorage) returns (first: DomainSettings, second: DomainSettings)
    ensures first == second == store.domainSettings
  {
    first := store.GetDomainSettings();
    second := store.GetDomainSettings();
  }

  /** The last of two writes is what a later read sees. */
  method LastWriteWins(a: DomainSettings, b: DomainSettings) returns (settings: DomainSettings)
    ensures settings == b
  {
    var store := new MemStorage();
    store.SetDomainSettings(a);
    store.SetDomainSettings(b);
    settings := store.GetDomainSettings();
  }

  /** Settings that `domainSettingsSchema` rejects can still be stored and
      read back, because the setter does not validate. */
  method StoresUnvalidatedSettings() returns (settings: DomainSettings)
    ensures !IsValidDomainSettings(settings)
    ensures settings == DomainSettings("", "", "")
  {
    var store := new MemStorage();
    store.SetDomainSettings(DomainSettings("", "", ""));
    settings := store.GetDomainSettings();
  }
}
