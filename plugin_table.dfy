/**
  The static plugin association table: the logical key of a library to the plugin bundles
  (sub-directories of the Qt plugins directory) it needs. This is a hand-maintained and possibly
  incomplete list; nothing is discovered from the binaries.
*/
module PluginTable {

  const Plugins: map<string, seq<string>> := map[
    "Qt63DInput" := ["3dinputdevices"],
    "Qt63DRender" := ["sceneparsers", "geometryloaders", "renderplugins", "renderers"],
    "Qt6Core" := ["platforms", "tracing"],
    "Qt6Designer" := ["designer"],
    "Qt6EglFSDeviceIntegration" := ["egldeviceintegrations"],
    "Qt6Gui" := ["accessiblebridge", "platforms", "xcbglintegrations", "platformthemes",
                 "platforminputcontexts", "generic", "iconengines", "imageformats",
                 "egldeviceintegrations"],
    "Qt6Location" := ["geoservices"],
    "Qt6Multimedia" := ["multimedia"],
    "Qt6Network" := ["tls", "networkinformation"],
    "Qt6OpcUa" := ["opcua"],
    "Qt6Positioning" := ["position"],
    "Qt6PrintSupport" := ["printsupport"],
    "Qt6Qml" := ["qmltooling"],
    "Qt6QmlCompilerPrivate" := ["qmllint"],
    "Qt6Quick" := ["scenegraph"],
    "Qt6Quick3DAssetImport" := ["assetimporters"],
    "Qt6Scxml" := ["scxmldatamodel"],
    "Qt6Sensors" := ["sensors"],
    "Qt6SerialBus" := ["canbus"],
    "Qt6Sql" := ["sqldrivers"],
    "Qt6Svg" := ["iconengines"],
    "Qt6TextToSpeech" := ["texttospeech"],
    "Qt6WaylandClient" := ["wayland-decoration-client", "wayland-inputdevice-integration",
                           "wayland-shell-integration"],
    "Qt6WaylandCompositor" := ["wayland-graphics-integration-server",
                               "wayland-hardware-layer-integration"],
    "Qt6WebView" := ["webview"],
    "Qt6Widgets" := ["styles"]
  ]

  /** The bundles `--wayland` adds to the extra plugins, in order. */
  const WaylandPlugins: seq<string> :=
    ["wayland-decoration-client", "wayland-graphics-integration-client", "wayland-shell-integration"]

  /**
    Every entry lists at least one bundle, under the logical key of a Qt 6 library (the part of
    `libQt6<Module>.so.6` that `copy_library` looks up).
  */
  lemma PluginEntries()
    ensures forall k :: k in Plugins ==> Plugins[k] != [] && |k| > 3 && k[..3] == "Qt6"
  {
  }

  /**
    Two of the `--wayland` bundles are also pulled in by `Qt6WaylandClient`; the client graphics
    integration is listed under no key, so only the flag deploys it.
  */
  lemma WaylandBundles()
    ensures WaylandPlugins[0] in Plugins["Qt6WaylandClient"] && WaylandPlugins[2] in Plugins["Qt6WaylandClient"]
    ensures forall k :: k in Plugins ==> WaylandPlugins[1] !in Plugins[k]
  {
  }
}
