/**
 * The Demandware client service: the settings it reads from its component
 * configuration on activation, the WebDAV endpoint it reports, and the
 * connection parameters (timeouts, local interface, TLS socket factory) it
 * derives from those settings when it builds an HTTP client.
 */
module Client {
  import opened Wrappers
  import opened JavaStrings
  import opened OsgiProperties
  import opened Encodings

  // Configuration property names.
  const InstanceIdKey: string := "instance.id"
  const EndpointKey: string := "endpoint"
  const SocketTimeoutKey: string := "timeout.socket"
  const ConnectionTimeoutKey: string := "connection.socket"
  const InterfaceKey: string := "interface"
  const SslKey: string := "ssl"
  const KeystoreTypeKey: string := "keystore.type"
  const KeystorePathKey: string := "keystore.path"
  const KeystorePasswordKey: string := "keystore.password"
  const KeyPasswordKey: string := "key.password"
  const AssetDownloadEndpointKey: string := "assetDownloadEndpoint"
  const WebDavEndpointKey: string := "webdav.endpoint"
  const WebDavUserKey: string := "webdav.user"
  const WebDavPasswordKey: string := "webdav.password"

  const DefaultSslProtocol: string := "TLSv1.2"
  const DefaultKeystoreType: string := "JKS"

  /** The Granite CryptoSupport service: unprotect yields None where it throws CryptoException. */
  datatype CryptoSupport = CryptoSupport(isProtected: JString -> bool, unprotect: JString -> Option<string>)

  /** Why activation throws. */
  datatype ActivationError = MandatoryFieldMissing | CryptoFailure

  /** The fourteen fields of the client that activation assigns. */
  datatype ClientSettings = ClientSettings(
    instanceId: JString,
    instanceEndPoint: JString,
    assetDownloadEndpoint: JString,
    webDavEndpoint: JString,
    webDavUser: JString,
    webDavUserPassword: JString,
    protocolInterface: JString,
    protocolSsl: JString,
    keystoreType: JString,
    keyStorePath: JString,
    keyStorePwd: JString,
    keyPwd: JString,
    socketTimeout: int,
    connectionTimeout: int)

  /** The fields of a client that has never been activated. */
  const Unconfigured: ClientSettings :=
    ClientSettings(None, None, None, None, None, None, None, None, None, None, None, None, 0, 0)

  /** What activation reports, and the fields it leaves behind (also when it throws part-way). */
  datatype ActivationResult = ActivationResult(outcome: Outcome<ActivationError>, settings: ClientSettings)

  /** The three properties without which the client refuses to activate, none of them blank. */
  predicate MandatoryPresent(s: ClientSettings) {
    !IsBlank(s.instanceId) && !IsBlank(s.instanceEndPoint) && !IsBlank(s.assetDownloadEndpoint)
  }

  /** The configured WebDAV password, unprotected when the crypto service says it is protected. */
  function StoredPassword(config: Properties, crypto: CryptoSupport): Option<JString> {
    var password := ToStringProp(config, WebDavPasswordKey, None);
    if crypto.isProtected(password) then
      match crypto.unprotect(password)
      case Some(clear) => Some(Some(clear))
      case None => None
    else Some(password)
  }

  /** The first step of activation: the three mandatory values are read. */
  function WithMandatory(config: Properties, prior: ClientSettings): ClientSettings {
    prior.(
      instanceId := ToStringProp(config, InstanceIdKey, None),
      instanceEndPoint := ToStringProp(config, EndpointKey, None),
      assetDownloadEndpoint := ToStringProp(config, AssetDownloadEndpointKey, None))
  }

  /** The second step: the WebDAV endpoint and user are read. */
  function WithWebDav(config: Properties, s: ClientSettings): ClientSettings {
    s.(webDavEndpoint := ToStringProp(config, WebDavEndpointKey, None),
       webDavUser := ToStringProp(config, WebDavUserKey, None))
  }

  /** The connection settings activation reads last. */
  datatype NetworkSettings = NetworkSettings(
    protocolInterface: JString,
    protocolSsl: JString,
    keystoreType: JString,
    keyStorePath: JString,
    keyStorePwd: JString,
    keyPwd: JString,
    socketTimeout: int,
    connectionTimeout: int)

  /** The connection settings of a configuration: the interface as given, the protocol and keystore
      values trimmed to null (with TLSv1.2 and JKS as defaults), the timeouts parsed with 0 as default. */
  function NetworkSettingsFrom(config: Properties): NetworkSettings {
    NetworkSettings(
      ToStringProp(config, InterfaceKey, None),
      TrimToNull(ToStringProp(config, SslKey, Some(DefaultSslProtocol))),
      TrimToNull(ToStringProp(config, KeystoreTypeKey, Some(DefaultKeystoreType))),
      TrimToNull(ToStringProp(config, KeystorePathKey, None)),
      TrimToNull(ToStringProp(config, KeystorePasswordKey, None)),
      TrimToNull(ToStringProp(config, KeyPasswordKey, None)),
      ToIntegerProp(config, SocketTimeoutKey, 0),
      ToIntegerProp(config, ConnectionTimeoutKey, 0))
  }

  /** The last step: the password and the connection settings are stored. */
  function WithNetwork(s: ClientSettings, password: JString, n: NetworkSettings): ClientSettings {
    s.(webDavUserPassword := password,
       protocolInterface := n.protocolInterface,
       protocolSsl := n.protocolSsl,
       keystoreType := n.keystoreType,
       keyStorePath := n.keyStorePath,
       keyStorePwd := n.keyStorePwd,
       keyPwd := n.keyPwd,
       socketTimeout := n.socketTimeout,
       connectionTimeout := n.connectionTimeout)
  }

  /**
   * activate(config): the three mandatory values are stored first and checked for blanks;
   * then the WebDAV endpoint and user, then the (possibly protected) password, then the
   * network settings. An exception leaves the fields assigned so far in place.
   */
  function Activation(config: Properties, crypto: CryptoSupport, prior: ClientSettings): (r: ActivationResult)
    ensures r.settings.instanceId == ToStringProp(config, InstanceIdKey, None)
    ensures r.outcome.Pass? ==> MandatoryPresent(r.settings)
    ensures r.outcome == Fail(MandatoryFieldMissing) <==> !MandatoryPresent(r.settings)
    ensures r.outcome.Fail? ==> r.settings.socketTimeout == prior.socketTimeout && r.settings.keyPwd == prior.keyPwd
  {
    var s1 := WithMandatory(config, prior);
    if !MandatoryPresent(s1) then ActivationResult(Fail(MandatoryFieldMissing), s1)
    else
      var s2 := WithWebDav(config, s1);
      match StoredPassword(config, crypto)
      case None => ActivationResult(Fail(CryptoFailure), s2)
      case Some(password) => ActivationResult(Pass, WithNetwork(s2, password, NetworkSettingsFrom(config)))
  }

  /** getWebDavEndpoint: the dedicated WebDAV host when one is configured, else the instance endpoint. */
  function WebDavEndpointOf(s: ClientSettings): (r: JString)
    ensures MandatoryPresent(s) ==> IsNotEmpty(r)
    ensures r == s.webDavEndpoint || r == s.instanceEndPoint
  {
    if IsNotEmpty(s.webDavEndpoint) then s.webDavEndpoint else s.instanceEndPoint
  }

  /** A successful activation stores exactly what its three steps compute. */
  lemma ActivationPass(config: Properties, crypto: CryptoSupport, prior: ClientSettings)
    requires Activation(config, crypto, prior).outcome.Pass?
    ensures StoredPassword(config, crypto).Some?
    ensures Activation(config, crypto, prior).settings
      == WithNetwork(WithWebDav(config, WithMandatory(config, prior)), StoredPassword(config, crypto).value,
                     NetworkSettingsFrom(config))
  {
  }

  /** Activation succeeds exactly when the mandatory values are all non-blank and the password can be unprotected. */
  lemma ActivateOutcome(config: Properties, crypto: CryptoSupport, prior: ClientSettings)
    ensures var a := Activation(config, crypto, prior);
      && (a.outcome == Fail(MandatoryFieldMissing) <==>
            (|| IsBlank(ToStringProp(config, InstanceIdKey, None))
             || IsBlank(ToStringProp(config, EndpointKey, None))
             || IsBlank(ToStringProp(config, AssetDownloadEndpointKey, None))))
      && (a.outcome.Pass? <==> MandatoryPresent(a.settings) && StoredPassword(config, crypto).Some?)
      && (a.outcome.Pass? || a.outcome == Fail(MandatoryFieldMissing) || a.outcome == Fail(CryptoFailure))
  {
  }

  /** A rejected configuration still leaves its three mandatory values in the fields, and nothing else changes. */
  lemma ActivateMandatoryFailureKeepsRest(config: Properties, crypto: CryptoSupport, prior: ClientSettings)
    requires Activation(config, crypto, prior).outcome == Fail(MandatoryFieldMissing)
    ensures var s := Activation(config, crypto, prior).settings;
      && s.instanceId == ToStringProp(config, InstanceIdKey, None)
      && s.instanceEndPoint == ToStringProp(config, EndpointKey, None)
      && s.assetDownloadEndpoint == ToStringProp(config, AssetDownloadEndpointKey, None)
      && s.(instanceId := prior.instanceId, instanceEndPoint := prior.instanceEndPoint,
            assetDownloadEndpoint := prior.assetDownloadEndpoint) == prior
  {
  }

  /** A password that cannot be unprotected stops activation after the WebDAV endpoint and user were stored. */
  lemma ActivateCryptoFailureKeepsRest(config: Properties, crypto: CryptoSupport, prior: ClientSettings)
    requires Activation(config, crypto, prior).outcome == Fail(CryptoFailure)
    ensures var s := Activation(config, crypto, prior).settings;
      && MandatoryPresent(s)
      && s.webDavEndpoint == ToStringProp(config, WebDavEndpointKey, None)
      && s.webDavUser == ToStringProp(config, WebDavUserKey, None)
      && s == WithWebDav(config, WithMandatory(config, prior))
      && s.(instanceId := prior.instanceId, instanceEndPoint := prior.instanceEndPoint,
            assetDownloadEndpoint := prior.assetDownloadEndpoint,
            webDavEndpoint := prior.webDavEndpoint, webDavUser := prior.webDavUser) == prior
  {
  }

  /** A successful activation determines every field: whatever the client held before is forgotten. */
  lemma ActivateForgetsPrior(config: Properties, crypto: CryptoSupport, p: ClientSettings, q: ClientSettings)
    requires Activation(config, crypto, p).outcome.Pass?
    ensures Activation(config, crypto, q) == Activation(config, crypto, p)
  {
  }

  /** Activating twice with the same configuration is activating once. */
  lemma ActivateTwice(config: Properties, crypto: CryptoSupport, prior: ClientSettings)
    requires Activation(config, crypto, prior).outcome.Pass?
    ensures var once := Activation(config, crypto, prior);
      Activation(config, crypto, once.settings) == once
  {
    ActivateForgetsPrior(config, crypto, prior, Activation(config, crypto, prior).settings);
  }

  /** Defaults: TLSv1.2, a JKS keystore, no keystore, and zero (unset) timeouts when the properties are absent. */
  lemma NetworkDefaults(config: Properties)
    ensures var n := NetworkSettingsFrom(config);
      && (SslKey !in config ==> n.protocolSsl == Some(DefaultSslProtocol))
      && (KeystoreTypeKey !in config ==> n.keystoreType == Some(DefaultKeystoreType))
      && (KeystorePathKey !in config ==> n.keyStorePath.None?)
      && (KeyPasswordKey !in config ==> n.keyPwd.None?)
      && (SocketTimeoutKey !in config ==> n.socketTimeout == 0)
      && (ConnectionTimeoutKey !in config ==> n.connectionTimeout == 0)
  {
    TrimToNullKeeps(DefaultSslProtocol);
    TrimToNullKeeps(DefaultKeystoreType);
  }

  /** The protocol and keystore values are stored trimmed, and a blank one is stored as null. */
  lemma NetworkValuesTrimmed(config: Properties)
    ensures var n := NetworkSettingsFrom(config);
      forall v :: v in [n.protocolSsl, n.keystoreType, n.keyStorePath, n.keyStorePwd, n.keyPwd] ==>
        v.None? || (v.value != "" && Trim(v.value) == v.value)
  {
    forall key, default | key in [SslKey, KeystoreTypeKey, KeystorePathKey, KeystorePasswordKey, KeyPasswordKey]
      ensures var v := TrimToNull(ToStringProp(config, key, default));
        v.None? || (v.value != "" && Trim(v.value) == v.value)
    {
      var raw := ToStringProp(config, key, default);
      if raw.Some? {
        TrimIdempotent(raw.value);
      }
    }
  }

  /** The WebDAV password is kept exactly as configured (untrimmed) unless the crypto service protects it. */
  lemma ActivatePassword(config: Properties, crypto: CryptoSupport, prior: ClientSettings)
    requires Activation(config, crypto, prior).outcome.Pass?
    ensures var s := Activation(config, crypto, prior).settings;
      var raw := ToStringProp(config, WebDavPasswordKey, None);
      && (!crypto.isProtected(raw) ==> s.webDavUserPassword == raw)
      && (crypto.isProtected(raw) ==> s.webDavUserPassword == Some(crypto.unprotect(raw).value))
  {
  }

  /** Without a dedicated WebDAV host the WebDAV endpoint of an activated client is its instance endpoint. */
  lemma ActivatedWebDavEndpoint(config: Properties, crypto: CryptoSupport, prior: ClientSettings)
    requires Activation(config, crypto, prior).outcome.Pass?
    ensures var s := Activation(config, crypto, prior).settings;
      && IsNotEmpty(WebDavEndpointOf(s))
      && (WebDavEndpointKey !in config || config[WebDavEndpointKey] == "" ==>
            WebDavEndpointOf(s) == ToStringProp(config, EndpointKey, None))
      && (WebDavEndpointKey in config && config[WebDavEndpointKey] != "" ==>
            WebDavEndpointOf(s) == Some(config[WebDavEndpointKey]))
  {
  }

  /** An IP address as InetAddress.getByName resolves it. */
  datatype IpAddress = IpAddress(octets: seq<byte>)

  /** The request configuration: a connect timeout and a local address, each possibly unset. */
  datatype RequestConfig = RequestConfig(connectTimeout: Option<int>, localAddress: Option<IpAddress>)

  /** createRequestConfig: a positive connection timeout is applied; a non-empty interface name is
      resolved with the given resolver and an unresolvable one is skipped. */
  function CreateRequestConfig(s: ClientSettings, resolve: string -> Option<IpAddress>): (r: RequestConfig)
    ensures r.connectTimeout.Some? <==> s.connectionTimeout > 0
    ensures r.connectTimeout.Some? ==> r.connectTimeout.value == s.connectionTimeout
    ensures r.localAddress.Some? <==> IsNotEmpty(s.protocolInterface) && resolve(s.protocolInterface.value).Some?
    ensures r.localAddress.Some? ==> r.localAddress == resolve(s.protocolInterface.value)
  {
    RequestConfig(
      if s.connectionTimeout > 0 then Some(s.connectionTimeout) else None,
      if IsNotEmpty(s.protocolInterface) then resolve(s.protocolInterface.value) else None)
  }

  /** The socket timeout guard of getHttpClientBuilder: only a positive value is applied. */
  function SocketTimeoutOf(s: ClientSettings): (r: Option<int>)
    ensures r.Some? <==> s.socketTimeout > 0
    ensures r.Some? ==> r.value == s.socketTimeout
  {
    if s.socketTimeout > 0 then Some(s.socketTimeout) else None
  }

  /** A positive socket timeout property is applied to the client; a missing or non-numeric one leaves it unset. */
  lemma SocketTimeoutFromConfig(config: Properties, crypto: CryptoSupport, prior: ClientSettings)
    requires Activation(config, crypto, prior).outcome.Pass?
    ensures var t := SocketTimeoutOf(Activation(config, crypto, prior).settings);
      && (t.Some? <==> SocketTimeoutKey in config && ParseInt(config[SocketTimeoutKey]).Some?
                        && ParseInt(config[SocketTimeoutKey]).value > 0)
      && (t.Some? ==> t == ParseInt(config[SocketTimeoutKey]))
  {
  }

  /** The key store the client presents: type, file, store password and key password. */
  datatype ClientKeystore = ClientKeystore(keystoreType: string, path: string, password: string, keyPassword: string)

  /** The TLS socket factory: the library default, or one restricted to the configured protocol
      with an optional client key store. */
  datatype SocketFactory = SystemDefaultTls | CustomTls(protocols: seq<JString>, keyMaterial: Option<ClientKeystore>)

  /** The key store to load: present when both a path and a store password are set; the type
      falls back to JKS and a missing key password is the empty password. */
  function KeystoreOf(s: ClientSettings): (r: Option<ClientKeystore>)
    ensures r.Some? <==> s.keyStorePath.Some? && s.keyStorePwd.Some?
    ensures r.Some? ==> r.value.path == s.keyStorePath.value && r.value.password == s.keyStorePwd.value
    ensures r.Some? ==> r.value.keystoreType == (if s.keystoreType.Some? then s.keystoreType.value else DefaultKeystoreType)
    ensures r.Some? ==> r.value.keyPassword == (if s.keyPwd.Some? then s.keyPwd.value else "")
  {
    if s.keyStorePath.Some? && s.keyStorePwd.Some? then
      Some(ClientKeystore(
        if s.keystoreType.Some? then s.keystoreType.value else DefaultKeystoreType,
        s.keyStorePath.value, s.keyStorePwd.value,
        if s.keyPwd.Some? then s.keyPwd.value else ""))
    else None
  }

  /**
   * createDefaultSecureSocketFactory as written. `loads` says whether opening the file, loading
   * the key store and its key material succeed; any exception falls back to the default factory.
   * A null key password makes keyPwd.toCharArray() throw inside the same try block.
   */
  function SecureSocketFactoryAsWritten(s: ClientSettings, loads: ClientKeystore -> bool): (r: SocketFactory)
    ensures r.CustomTls? ==> r.protocols == [s.protocolSsl]
    ensures r.CustomTls? && r.keyMaterial.Some? ==> s.keyPwd.Some? && KeystoreOf(s) == r.keyMaterial
    ensures s.keyStorePath.Some? && s.keyStorePwd.Some? && s.keyPwd.None? ==> r == SystemDefaultTls
    ensures s.keyStorePath.None? || s.keyStorePwd.None? ==> r == CustomTls([s.protocolSsl], None)
    ensures KeystoreOf(s).Some? && s.keyPwd.Some? ==>
      (r == CustomTls([s.protocolSsl], KeystoreOf(s)) <==> loads(KeystoreOf(s).value))
    ensures KeystoreOf(s).Some? && s.keyPwd.Some? ==>
      (r == SystemDefaultTls <==> !loads(KeystoreOf(s).value))
  {
    if s.keyStorePath.Some? && s.keyStorePwd.Some? then
      if s.keyPwd.None? then SystemDefaultTls
      else
        var ks := KeystoreOf(s).value;
        if loads(ks) then CustomTls([s.protocolSsl], Some(ks)) else SystemDefaultTls
    else CustomTls([s.protocolSsl], None)
  }

  /** The secure socket factory as the key password property is documented ("leave empty for no
      password"): a missing key password is the empty password. */
  function SecureSocketFactory(s: ClientSettings, loads: ClientKeystore -> bool): (r: SocketFactory)
    ensures r == SystemDefaultTls <==> KeystoreOf(s).Some? && !loads(KeystoreOf(s).value)
    ensures r.CustomTls? ==> r.protocols == [s.protocolSsl] && r.keyMaterial == KeystoreOf(s)
  {
    match KeystoreOf(s)
    case None => CustomTls([s.protocolSsl], None)
    case Some(ks) => if loads(ks) then CustomTls([s.protocolSsl], Some(ks)) else SystemDefaultTls
  }

  /** Both readings agree whenever a key password is configured. */
  lemma SecureSocketFactoryWithKeyPassword(s: ClientSettings, loads: ClientKeystore -> bool)
    requires s.keyPwd.Some?
    ensures SecureSocketFactoryAsWritten(s, loads) == SecureSocketFactory(s, loads)
  {
  }

  /** Without a key password the configured client certificate is silently dropped as written,
      though the key store loads with the empty key password. */
  lemma KeystoreDroppedWithoutKeyPassword(s: ClientSettings, loads: ClientKeystore -> bool)
    requires s.keyStorePath.Some? && s.keyStorePwd.Some? && s.keyPwd.None?
    requires loads(KeystoreOf(s).value)
    ensures SecureSocketFactoryAsWritten(s, loads) == SystemDefaultTls
    ensures SecureSocketFactory(s, loads) == CustomTls([s.protocolSsl], KeystoreOf(s))
    ensures KeystoreOf(s).value.keyPassword == ""
  {
  }

  /** A configuration that follows the documentation of key.password ("leave empty for no
      password") activates, and the client certificate it configures is then dropped as written. */
  lemma KeystoreDroppedWhenKeyPasswordLeftEmpty(config: Properties, crypto: CryptoSupport,
                                                prior: ClientSettings, loads: ClientKeystore -> bool)
    requires Activation(config, crypto, prior).outcome.Pass?
    requires KeystorePathKey in config && Trim(config[KeystorePathKey]) != ""
    requires KeystorePasswordKey in config && Trim(config[KeystorePasswordKey]) != ""
    requires KeyPasswordKey in config && config[KeyPasswordKey] == ""
    requires var s := Activation(config, crypto, prior).settings; loads(KeystoreOf(s).value)
    ensures var s := Activation(config, crypto, prior).settings;
      && KeystoreOf(s).Some?
      && KeystoreOf(s).value.path == Trim(config[KeystorePathKey])
      && KeystoreOf(s).value.keyPassword == ""
      && SecureSocketFactoryAsWritten(s, loads) == SystemDefaultTls
      && SecureSocketFactory(s, loads) == CustomTls([s.protocolSsl], KeystoreOf(s))
  {
    ActivationPass(config, crypto, prior);
    assert Trim("") == "";
  }

  /** What getHttpClientBuilder configures beyond the library wiring. */
  datatype HttpClientSettings = HttpClientSettings(socketTimeout: Option<int>, request: RequestConfig, https: SocketFactory)

  /**
   * getHttpClientBuilder as written: the socket timeout guard, the request configuration, and the
   * HTTPS factory its scheme registry takes from createDefaultSecureSocketFactory.
   */
  function HttpClientSettingsOf(s: ClientSettings, resolve: string -> Option<IpAddress>,
                                loads: ClientKeystore -> bool): (r: HttpClientSettings)
    ensures r.socketTimeout.Some? <==> s.socketTimeout > 0
    ensures r.socketTimeout.Some? ==> r.socketTimeout.value == s.socketTimeout
    ensures r.request.connectTimeout.Some? <==> s.connectionTimeout > 0
    ensures r.https.CustomTls? ==> r.https.protocols == [s.protocolSsl]
    ensures KeystoreOf(s).None? ==> r.https == CustomTls([s.protocolSsl], None)
    ensures r.https.CustomTls? && r.https.keyMaterial.Some? ==> s.keyPwd.Some?
  {
    HttpClientSettings(SocketTimeoutOf(s), CreateRequestConfig(s, resolve), SecureSocketFactoryAsWritten(s, loads))
  }

  /** getHttpClientBuilder with the corrected secure socket factory (a missing key password is the
      empty password). */
  function HttpClientSettingsCorrected(s: ClientSettings, resolve: string -> Option<IpAddress>,
                                       loads: ClientKeystore -> bool): (r: HttpClientSettings)
    ensures r.socketTimeout.Some? <==> s.socketTimeout > 0
    ensures r.request.connectTimeout.Some? <==> s.connectionTimeout > 0
    ensures r.https.CustomTls? ==> r.https.protocols == [s.protocolSsl] && r.https.keyMaterial == KeystoreOf(s)
    ensures r.https == SystemDefaultTls <==> KeystoreOf(s).Some? && !loads(KeystoreOf(s).value)
  {
    HttpClientSettings(SocketTimeoutOf(s), CreateRequestConfig(s, resolve), SecureSocketFactory(s, loads))
  }

  /** The two builds differ only in the HTTPS factory, and only when a loadable key store is
      configured without a key password. */
  lemma {:induction false} HttpClientSettingsDiffer(s: ClientSettings, resolve: string -> Option<IpAddress>,
                                                    loads: ClientKeystore -> bool)
    ensures HttpClientSettingsOf(s, resolve, loads) != HttpClientSettingsCorrected(s, resolve, loads) <==>
      KeystoreOf(s).Some? && s.keyPwd.None? && loads(KeystoreOf(s).value)
  {
    if s.keyPwd.Some? {
      SecureSocketFactoryWithKeyPassword(s, loads);
    } else if KeystoreOf(s).Some? && loads(KeystoreOf(s).value) {
      KeystoreDroppedWithoutKeyPassword(s, loads);
    }
  }

  /** DemandwareClientImpl: an OSGi component whose activation fills its fields. */
  class DemandwareClient {
    const cryptoSupport: CryptoSupport
    var instanceEndPoint: JString
    var socketTimeout: int
    var connectionTimeout: int
    var protocolInterface: JString
    var protocolSsl: JString
    var keystoreType: JString
    var keyStorePath: JString
    var keyStorePwd: JString
    var keyPwd: JString
    var assetDownloadEndpoint: JString
    var instanceId: JString
    var webDavEndpoint: JString
    var webDavUser: JString
    var webDavUserPassword: JString

    /** The fields gathered into one value. */
    function Settings(): ClientSettings
      reads this
    {
      ClientSettings(instanceId, instanceEndPoint, assetDownloadEndpoint, webDavEndpoint, webDavUser,
        webDavUserPassword, protocolInterface, protocolSsl, keystoreType, keyStorePath, keyStorePwd,
        keyPwd, socketTimeout, connectionTimeout)
    }

    constructor(cryptoSupport: CryptoSupport)
      ensures this.cryptoSupport == cryptoSupport && Settings() == Unconfigured
    {
      this.cryptoSupport := cryptoSupport;
      instanceEndPoint, socketTimeout, connectionTimeout := None, 0, 0;
      protocolInterface, protocolSsl, keystoreType := None, None, None;
      keyStorePath, keyStorePwd, keyPwd := None, None, None;
      assetDownloadEndpoint, instanceId := None, None;
      webDavEndpoint, webDavUser, webDavUserPassword := None, None, None;
    }

    function GetEndpoint(): JString reads this { instanceEndPoint }
    function GetInstanceId(): JString reads this { instanceId }
    function GetAssetDownloadEndpoint(): JString reads this { assetDownloadEndpoint }
    function GetWebDavUser(): JString reads this { webDavUser }
    function GetWebDavUserPassword(): JString reads this { webDavUserPassword }

    function GetWebDavEndpoint(): (r: JString)
      reads this
      ensures r == WebDavEndpointOf(Settings())
      ensures MandatoryPresent(Settings()) ==> IsNotEmpty(r)
    {
      if IsNotEmpty(webDavEndpoint) then webDavEndpoint else instanceEndPoint
    }

    /** activate(config), field by field; a returned failure stands for the exception thrown. */
    method Activate(config: Properties) returns (r: Outcome<ActivationError>)
      modifies this
      ensures var a := Activation(config, cryptoSupport, old(Settings()));
        r == a.outcome && Settings() == a.settings
    {
      instanceId := ToStringProp(config, InstanceIdKey, None);
      instanceEndPoint := ToStringProp(config, EndpointKey, None);
      assetDownloadEndpoint := ToStringProp(config, AssetDownloadEndpointKey, None);
      ghost var s1 := Settings();
      assert s1 == WithMandatory(config, old(Settings()));
      if IsBlank(instanceId) || IsBlank(instanceEndPoint) || IsBlank(assetDownloadEndpoint) {
        return Fail(MandatoryFieldMissing);
      }
      webDavEndpoint := ToStringProp(config, WebDavEndpointKey, None);
      webDavUser := ToStringProp(config, WebDavUserKey, None);
      ghost var s2 := Settings();
      assert s2 == WithWebDav(config, s1);
      var password := ToStringProp(config, WebDavPasswordKey, None);
      if cryptoSupport.isProtected(password) {
        var clear := cryptoSupport.unprotect(password);
        if clear.None? {
          return Fail(CryptoFailure);
        }
        password := Some(clear.value);
      }
      assert StoredPassword(config, cryptoSupport) == Some(password);
      StoreNetwork(password, NetworkSettingsFrom(config));
      return Pass;
    }

    /** The rest of activate: the password, then the connection settings, stored field by field. */
    method StoreNetwork(password: JString, network: NetworkSettings)
      modifies this
      ensures Settings() == WithNetwork(old(Settings()), password, network)
    {
      webDavUserPassword := password;
      protocolInterface := network.protocolInterface;
      protocolSsl := network.protocolSsl;
      keystoreType := network.keystoreType;
      keyStorePath := network.keyStorePath;
      keyStorePwd := network.keyStorePwd;
      keyPwd := network.keyPwd;
      socketTimeout := network.socketTimeout;
      connectionTimeout := network.connectionTimeout;
    }
  }
}
