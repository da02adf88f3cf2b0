/** The shared connection flags and application state of `main/app_state.c`. */
module AppState {
  import opened EventBus

  datatype App = WaitBt | NoWifi | WifiConnecting | WifiFailed | Bridge | BridgeNoWifi

  class Flags {
    var app: App
    var btConnected: bool
    var wifiConnected: bool
    const bus: Bus

    constructor (bus: Bus)
      ensures this.bus == bus && app == WaitBt && !btConnected && !wifiConnected
    {
      this.bus := bus;
      app, btConnected, wifiConnected := WaitBt, false, false;
    }

    method SetApp(a: App)
      modifies `app
      ensures app == a
    {
      if app != a { app := a; }
    }

    /** Publishes only when the flag changes. */
    method SetBtConnected(connected: bool)
      requires bus.Valid()
      modifies `btConnected, bus`published
      ensures bus.Valid() && btConnected == connected
      ensures bus.published == old(bus.published)
              + (if old(btConnected) == connected then [] else [if connected then BtUp else BtDown])
    {
      var changed := btConnected != connected;
      btConnected := connected;
      if changed {
        var _ := bus.Publish(if connected then BtUp else BtDown);
      }
    }

    method SetWifiConnected(connected: bool)
      requires bus.Valid()
      modifies `wifiConnected, bus`published
      ensures bus.Valid() && wifiConnected == connected
      ensures bus.published == old(bus.published)
              + (if old(wifiConnected) == connected then [] else [if connected then WifiUp else WifiDown])
    {
      var changed := wifiConnected != connected;
      wifiConnected := connected;
      if changed {
        var _ := bus.Publish(if connected then WifiUp else WifiDown);
      }
    }
  }
}
