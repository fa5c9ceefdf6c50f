# Demandware connector core, modelled in Dafny

This project models the core of the Adobe commerce connector for Salesforce Commerce Cloud (Demandware).
It covers four parts:

- **The Demandware client service** (`DemandwareClientImpl`). It reads its settings from the component
  configuration on activation and reports the WebDAV endpoint and credentials. It also derives the HTTP
  connection parameters: timeouts, the local interface, and the TLS socket factory with an optional client
  key store.
- **The client registry** (`DemandwareClientProviderImpl`). The OSGi framework binds and unbinds clients
  by instance id. The registry looks them up by instance id, or by the transport URI
  `demandware://<id>` of a replication agent.
- **The WebDAV transport** (`WebDAVTransportPlugin`). It turns one delivery record into WebDAV requests.
  A publish walks the folders of the target path from parent to child and creates the missing ones with
  MKCOL, then PUTs the payload. Any other action sends a DELETE, and a 404 counts as success. Every
  Sardine session is shut down.
- **Attribute descriptors** (`AttributeDescriptor`). Construction rejects blank names and trims the
  values. The toString output is shown to lose nothing.

The modules are:

- `Wrappers`: Option, Result, Outcome.
- `JavaStrings`: the `String` and commons-lang `StringUtils` operations the core calls, with Java
  `null` as `None`.
- `Encodings`: UTF-8, `URLEncoder`, percent-decoding, and commons-codec Base64 (section 4 of RFC 4648).
- `OsgiProperties`: `PropertiesUtil.toString` and `toInteger`.
- `Client`, `ClientProvider`, `WebDavShare`, `WebDavPaths`, `WebDavTransport` and `AttributeMapping`.

The remote share is a map from URL to resource. It answers HEAD, MKCOL, PUT and DELETE following
section 9 of RFC 4918: MKCOL on an existing URL gets 405, a MKCOL or PUT below a document gets 409
(Conflict), and DELETE of a missing URL gets 404. The map holds only what lies below the share's root, so
a missing parent collection is not detected. A *fault oracle* stands for every failure the network or the server may report, and
a failed request changes nothing. A Sardine session is a class. Its methods update the share and append
to the session's request log.

Each transport operation is a method with a loop or a session. Its contract ties the new share, the
request log and the result to a *trace* function. Lemmas state what the traces promise:

- only missing folders are created;
- nothing already on the share is lost;
- the PUT comes last and only after a completed walk;
- a second walk creates nothing;
- deleting twice is deleting once.

The accessors (`getEndpoint`, `getInstanceId`, `getAssetDownloadEndpoint`, `getWebDavUser`,
`getWebDavUserPassword`, `getDemandwareClients`, and the four getters of `AttributeDescriptor`) are
plain field reads. They are modelled as functions or datatype fields and have no row of their own.

Two points of `deliver` (`WebDAVTransportPlugin.java` lines 106-131) that are easy to misread:

- A missing `payload`, `data` or `mimetype` entry throws a `ReplicationException` ("Can not create asset
  data"). Only an empty content type gives the non-fatal `false` result ("No asset data to send").
- The payload bytes are never tested: the `data != null` check at line 124 cannot fail, so empty data
  with a non-empty content type is uploaded. See `WebDavTransport.EmptyContentTypeSendsNothing` and
  `WebDavTransport.Deliver`.

## Model

| member | source | states |
|---|---|---|
| JavaStrings.TrimToNull | bundles/core/src/main/java/com/adobe/cq/commerce/demandware/connection/DemandwareClientImpl.java:318-322 | null when the value is null or trims to nothing, else the trimmed value, which is non-empty |
| JavaStrings.TrimToEmpty | bundles/replication/src/main/java/com/adobe/cq/commerce/demandware/replication/content/attributemapping/AttributeDescriptor.java:50-53 | "" for null, else the value with characters up to U+0020 trimmed from both ends |
| JavaStrings.TrimIsSlice | bundles/replication/src/main/java/com/adobe/cq/commerce/demandware/replication/content/attributemapping/AttributeDescriptor.java:50-53 | the trimmed value is a slice of the input, with only trimmable characters cut off and none left at either end |
| JavaStrings.TrimEmpty | bundles/replication/src/main/java/com/adobe/cq/commerce/demandware/replication/content/attributemapping/AttributeDescriptor.java:50-53 | trimming gives "" exactly when every character is at most U+0020 |
| JavaStrings.TrimIdempotent | bundles/replication/src/main/java/com/adobe/cq/commerce/demandware/replication/content/attributemapping/AttributeDescriptor.java:50-53 | trimming twice is trimming once |
| JavaStrings.ControlCharacterIsNotBlankButTrimsAway | bundles/replication/src/main/java/com/adobe/cq/commerce/demandware/replication/content/attributemapping/AttributeDescriptor.java:42-53 | a NUL character is not blank for the blank check, yet trimming removes it |
| JavaStrings.SubstringsAroundLast | bundles/replication/src/main/java/com/adobe/cq/commerce/demandware/replication/transport/WebDAVTransportPlugin.java:94-95 | the text before and after the last separator, with the separator, rebuild the input; without a separator the whole input is the part before and the part after is "" |
| JavaStrings.SubstringBeforeLastOfJoin | bundles/replication/src/main/java/com/adobe/cq/commerce/demandware/replication/transport/WebDAVTransportPlugin.java:182 | the part before the last separator of a + sep + b is a when b has no separator |
| JavaStrings.Split | bundles/replication/src/main/java/com/adobe/cq/commerce/demandware/replication/transport/WebDAVTransportPlugin.java:183 | the tokens are non-empty and contain no separator |
| JavaStrings.SplitJoin | bundles/replication/src/main/java/com/adobe/cq/commerce/demandware/replication/transport/WebDAVTransportPlugin.java:183 | splitting the join of non-empty, separator-free tokens gives the tokens back |
| JavaStrings.AppendIfMissing | bundles/replication/src/main/java/com/adobe/cq/commerce/demandware/replication/transport/WebDAVTransportPlugin.java:185 | the input is kept when it already ends with the separator; otherwise exactly one separator is appended |
| JavaStrings.RemoveCharLeavesNone | bundles/core/src/main/java/com/adobe/cq/commerce/demandware/connection/DemandwareClientProviderImpl.java:50 | removing every "/" leaves no "/" |
| JavaStrings.ReplaceAbsentChar | bundles/core/src/main/java/com/adobe/cq/commerce/demandware/connection/DemandwareClientProviderImpl.java:50 | replacing a character that does not occur changes nothing |
| JavaStrings.ReplaceAllLeading | bundles/core/src/main/java/com/adobe/cq/commerce/demandware/connection/DemandwareClientProviderImpl.java:75 | replacing in target + s replaces the leading target and continues in s |
| JavaStrings.ReplaceAllAbsent | bundles/core/src/main/java/com/adobe/cq/commerce/demandware/connection/DemandwareClientProviderImpl.java:75 | a target that occurs nowhere leaves the text unchanged |
| OsgiProperties.ToStringProp | bundles/core/src/main/java/com/adobe/cq/commerce/demandware/connection/DemandwareClientImpl.java:293-295 | the configured value when the key is present, else the default |
| OsgiProperties.ToIntegerProp | bundles/core/src/main/java/com/adobe/cq/commerce/demandware/connection/DemandwareClientImpl.java:323-324 | the parsed value when the key is present and parses; the default when the key is missing or the value is not a 32-bit integer |
| OsgiProperties.ParseInt | bundles/core/src/main/java/com/adobe/cq/commerce/demandware/connection/DemandwareClientImpl.java:323-324 | a parsed value always lies in the 32-bit range |
| OsgiProperties.ParseIntOfDecimal | bundles/core/src/main/java/com/adobe/cq/commerce/demandware/connection/DemandwareClientImpl.java:323-324 | parsing the decimal text of any 32-bit value gives that value back |
| OsgiProperties.NonNumericIntegerPropertyIsDefault | bundles/core/src/main/java/com/adobe/cq/commerce/demandware/connection/DemandwareClientImpl.java:323-324 | a value holding any character other than a decimal digit or a leading sign leaves the default in place |
| Encodings.Utf8Char | bundles/replication/src/main/java/com/adobe/cq/commerce/demandware/replication/transport/WebDAVTransportPlugin.java:115 | a character encodes to 1 to 4 bytes, and to one byte exactly when it is ASCII |
| Encodings.Utf8Append | bundles/replication/src/main/java/com/adobe/cq/commerce/demandware/replication/transport/WebDAVTransportPlugin.java:115 | encoding a concatenation is concatenating the encodings |
| Encodings.PercentEncodeBytes | bundles/replication/src/main/java/com/adobe/cq/commerce/demandware/replication/transport/WebDAVTransportPlugin.java:94-95 | three characters per byte, each "%" or an upper-case hex digit |
| Encodings.UrlEncodeAppend | bundles/replication/src/main/java/com/adobe/cq/commerce/demandware/replication/transport/WebDAVTransportPlugin.java:94-95 | URL-encoding a concatenation is concatenating the encodings |
| Encodings.UrlEncodePlus | bundles/replication/src/main/java/com/adobe/cq/commerce/demandware/replication/transport/WebDAVTransportPlugin.java:94-95 | URLEncoder writes "+" for a space and "%2B" for a literal plus |
| Encodings.PercentDecodeEncodedBytes | bundles/replication/src/main/java/com/adobe/cq/commerce/demandware/replication/transport/WebDAVTransportPlugin.java:94-95 | percent-decoding escaped bytes gives those bytes, whatever follows |
| Encodings.Base64RoundTrip | bundles/replication/src/main/java/com/adobe/cq/commerce/demandware/replication/transport/WebDAVTransportPlugin.java:112-113 | decodeBase64 of the Base64 encoding of any bytes gives the bytes back |
| Client.WebDavEndpointOf | bundles/core/src/main/java/com/adobe/cq/commerce/demandware/connection/DemandwareClientImpl.java:276-278 | the WebDAV endpoint is the dedicated one or the instance endpoint, and never empty once the mandatory values are set |
| Client.ActivationPass | bundles/core/src/main/java/com/adobe/cq/commerce/demandware/connection/DemandwareClientImpl.java:293-324 | a successful activation stores the mandatory values, then the WebDAV endpoint and user, then the password and network settings |
| Client.Activation | bundles/core/src/main/java/com/adobe/cq/commerce/demandware/connection/DemandwareClientImpl.java:290-326 | activation always stores the instance id; it passes only with all mandatory values non-blank, fails on a mandatory value exactly when one is blank, and a failure leaves the timeouts and key password as they were |
| Client.ActivateOutcome | bundles/core/src/main/java/com/adobe/cq/commerce/demandware/connection/DemandwareClientImpl.java:293-315 | activation fails for a missing value exactly when one of the three mandatory values is blank; it succeeds exactly when they are all present and the password can be unprotected |
| Client.ActivateMandatoryFailureKeepsRest | bundles/core/src/main/java/com/adobe/cq/commerce/demandware/connection/DemandwareClientImpl.java:293-302 | a rejected configuration leaves its three mandatory values in the fields and every other field as it was |
| Client.ActivateCryptoFailureKeepsRest | bundles/core/src/main/java/com/adobe/cq/commerce/demandware/connection/DemandwareClientImpl.java:304-310 | a failure to unprotect the password comes after the mandatory values, the WebDAV endpoint and the user were stored; every other field keeps its old value |
| Client.ActivateForgetsPrior | bundles/core/src/main/java/com/adobe/cq/commerce/demandware/connection/DemandwareClientImpl.java:293-324 | a successful activation sets every field, whatever the client held before |
| Client.ActivateTwice | bundles/core/src/main/java/com/adobe/cq/commerce/demandware/connection/DemandwareClientImpl.java:290-326 | activating twice with the same configuration is activating once |
| Client.NetworkDefaults | bundles/core/src/main/java/com/adobe/cq/commerce/demandware/connection/DemandwareClientImpl.java:317-324 | absent properties give TLSv1.2, JKS, no key store, no key password and zero timeouts |
| Client.NetworkValuesTrimmed | bundles/core/src/main/java/com/adobe/cq/commerce/demandware/connection/DemandwareClientImpl.java:318-322 | the protocol and key-store values are stored trimmed and non-empty, or null |
| Client.ActivatePassword | bundles/core/src/main/java/com/adobe/cq/commerce/demandware/connection/DemandwareClientImpl.java:307-315 | the WebDAV password is stored as configured, or unprotected when the crypto service says it is protected |
| Client.ActivatedWebDavEndpoint | bundles/core/src/main/java/com/adobe/cq/commerce/demandware/connection/DemandwareClientImpl.java:276-278 | after activation the WebDAV endpoint is the configured non-empty WebDAV host, else the instance endpoint |
| Client.CreateRequestConfig | bundles/core/src/main/java/com/adobe/cq/commerce/demandware/connection/DemandwareClientImpl.java:195-213 | the connect timeout is set exactly when it is positive, and the local address exactly when a non-empty interface resolves |
| Client.SocketTimeoutOf | bundles/core/src/main/java/com/adobe/cq/commerce/demandware/connection/DemandwareClientImpl.java:156-161 | a socket timeout is applied exactly when it is positive |
| Client.SocketTimeoutFromConfig | bundles/core/src/main/java/com/adobe/cq/commerce/demandware/connection/DemandwareClientImpl.java:157-161 | after activation the socket timeout is applied exactly when the property parses to a positive integer |
| Client.KeystoreOf | bundles/core/src/main/java/com/adobe/cq/commerce/demandware/connection/DemandwareClientImpl.java:235-240 | a key store is loaded exactly when both a path and a store password are set, from that path with that password, with type JKS when none is set and the empty key password when none is set |
| Client.SecureSocketFactoryAsWritten | bundles/core/src/main/java/com/adobe/cq/commerce/demandware/connection/DemandwareClientImpl.java:230-258 | the factory as coded: without a key store it is limited to the configured protocol; with a key store and a key password it carries the key store exactly when the store loads; a key store without a key password is dropped |
| Client.SecureSocketFactory | bundles/core/src/main/java/com/adobe/cq/commerce/demandware/connection/DemandwareClientImpl.java:230-258 | the corrected factory is the default one exactly when the configured key store fails to load; otherwise it is limited to the protocol and carries the key store |
| Client.SecureSocketFactoryWithKeyPassword | bundles/core/src/main/java/com/adobe/cq/commerce/demandware/connection/DemandwareClientImpl.java:243-245 | with a key password set, the coded factory and the corrected one agree |
| Client.KeystoreDroppedWithoutKeyPassword | bundles/core/src/main/java/com/adobe/cq/commerce/demandware/connection/DemandwareClientImpl.java:244 | without a key password the coded factory drops a loadable key store, which the corrected one keeps |
| Client.KeystoreDroppedWhenKeyPasswordLeftEmpty | bundles/core/src/main/java/com/adobe/cq/commerce/demandware/connection/DemandwareClientImpl.java:235-256 | a configuration with key.password left empty, as documented, activates, and its client certificate is then dropped |
| Client.HttpClientSettingsOf | bundles/core/src/main/java/com/adobe/cq/commerce/demandware/connection/DemandwareClientImpl.java:142-170 | getHttpClientBuilder as written: the socket timeout is set exactly when positive, the connect timeout exactly when positive, and without a key store the HTTPS factory allows only the configured protocol |
| Client.HttpClientSettingsCorrected | bundles/core/src/main/java/com/adobe/cq/commerce/demandware/connection/DemandwareClientImpl.java:142-170 | getHttpClientBuilder with the corrected socket factory: the HTTPS factory is the default one exactly when a configured key store fails to load, and otherwise carries that key store |
| Client.HttpClientSettingsDiffer | bundles/core/src/main/java/com/adobe/cq/commerce/demandware/connection/DemandwareClientImpl.java:142-170 | the as-written and corrected builds differ exactly when a loadable key store is configured without a key password |
| Client.DemandwareClient.constructor | bundles/core/src/main/java/com/adobe/cq/commerce/demandware/connection/DemandwareClientImpl.java:122-135 | a new client holds no settings and zero timeouts |
| Client.DemandwareClient.GetWebDavEndpoint | bundles/core/src/main/java/com/adobe/cq/commerce/demandware/connection/DemandwareClientImpl.java:276-278 | the WebDAV endpoint of the stored settings; non-empty once the mandatory values are set |
| Client.DemandwareClient.Activate | bundles/core/src/main/java/com/adobe/cq/commerce/demandware/connection/DemandwareClientImpl.java:290-326 | the result and the new fields are those of the activation, including the fields left behind by a failure |
| Client.DemandwareClient.StoreNetwork | bundles/core/src/main/java/com/adobe/cq/commerce/demandware/connection/DemandwareClientImpl.java:307-324 | the password and network fields are replaced and nothing else changes |
| ClientProvider.LookupKey | bundles/core/src/main/java/com/adobe/cq/commerce/demandware/connection/DemandwareClientProviderImpl.java:50 | the lookup key is present and contains no "/" |
| ClientProvider.Lookup | bundles/core/src/main/java/com/adobe/cq/commerce/demandware/connection/DemandwareClientProviderImpl.java:49-56 | a client is found exactly when the slash-free id is a key, and it is the client stored there |
| ClientProvider.InstanceIdOf | bundles/core/src/main/java/com/adobe/cq/commerce/demandware/connection/DemandwareClientProviderImpl.java:73-77 | an agent without a transport URI names the empty instance id |
| ClientProvider.LookupAfterBind | bundles/core/src/main/java/com/adobe/cq/commerce/demandware/connection/DemandwareClientProviderImpl.java:79-84 | a client bound under an id without "/" is found under that id |
| ClientProvider.LookupAfterBindElsewhere | bundles/core/src/main/java/com/adobe/cq/commerce/demandware/connection/DemandwareClientProviderImpl.java:79-84 | binding under another key changes no other lookup |
| ClientProvider.LookupAfterUnbind | bundles/core/src/main/java/com/adobe/cq/commerce/demandware/connection/DemandwareClientProviderImpl.java:86-88 | after unbinding, lookups of that key find nothing and other lookups are unchanged |
| ClientProvider.UnreachableKeys | bundles/core/src/main/java/com/adobe/cq/commerce/demandware/connection/DemandwareClientProviderImpl.java:50 | a client bound under a null id or an id containing "/" is never found |
| ClientProvider.LookupIgnoresSlashes | bundles/core/src/main/java/com/adobe/cq/commerce/demandware/connection/DemandwareClientProviderImpl.java:50 | removing the slashes from the requested id first changes nothing |
| ClientProvider.InstanceIdOfTransportUri | bundles/core/src/main/java/com/adobe/cq/commerce/demandware/connection/DemandwareClientProviderImpl.java:73-77 | "demandware://" followed by an id in which the scheme does not occur names that id |
| ClientProvider.AgentReachesBoundClient | bundles/core/src/main/java/com/adobe/cq/commerce/demandware/connection/DemandwareClientProviderImpl.java:69-84 | the agent for "demandware://<id>" reaches the client bound under that id, for every id without "/" |
| ClientProvider.DemandwareClientProvider.constructor | bundles/core/src/main/java/com/adobe/cq/commerce/demandware/connection/DemandwareClientProviderImpl.java:46 | a new provider has no map yet |
| ClientProvider.DemandwareClientProvider.GetClientForSpecificInstance | bundles/core/src/main/java/com/adobe/cq/commerce/demandware/connection/DemandwareClientProviderImpl.java:49-56 | the lookup of the slash-free id in the registry |
| ClientProvider.DemandwareClientProvider.GetClientForAgentConfig | bundles/core/src/main/java/com/adobe/cq/commerce/demandware/connection/DemandwareClientProviderImpl.java:69-71 | the lookup of the instance id named by the agent's transport URI |
| ClientProvider.DemandwareClientProvider.BindDemandwareClient | bundles/core/src/main/java/com/adobe/cq/commerce/demandware/connection/DemandwareClientProviderImpl.java:79-84 | the map exists afterwards and maps the client's instance id to the client, with everything else kept |
| ClientProvider.DemandwareClientProvider.UnbindDemandwareClient | bundles/core/src/main/java/com/adobe/cq/commerce/demandware/connection/DemandwareClientProviderImpl.java:86-88 | the map loses the client's instance id and keeps everything else |
| WebDavShare.RemoveTree | bundles/replication/src/main/java/com/adobe/cq/commerce/demandware/replication/transport/WebDAVTransportPlugin.java:208 | a DELETE removes the resource and everything below it, and keeps the rest unchanged |
| WebDavShare.Serve | bundles/replication/src/main/java/com/adobe/cq/commerce/demandware/replication/transport/WebDAVTransportPlugin.java:149-222 | a failed request and a HEAD never change the share |
| WebDavShare.ServeHead | bundles/replication/src/main/java/com/adobe/cq/commerce/demandware/replication/transport/WebDAVTransportPlugin.java:186 | a HEAD that gets an answer reports whether the URL exists |
| WebDavShare.ServeMkcol | bundles/replication/src/main/java/com/adobe/cq/commerce/demandware/replication/transport/WebDAVTransportPlugin.java:190 | MKCOL succeeds exactly when nothing is at the URL, no document lies above it and no fault intervenes, and then adds exactly one collection |
| WebDavShare.ServeBelowDocument | bundles/replication/src/main/java/com/adobe/cq/commerce/demandware/replication/transport/WebDAVTransportPlugin.java:190 | a MKCOL or PUT below an existing document is refused with 409 (Conflict) |
| WebDavShare.ServeDelete | bundles/replication/src/main/java/com/adobe/cq/commerce/demandware/replication/transport/WebDAVTransportPlugin.java:208-212 | a DELETE of a missing URL is a 404, and a successful one removes exactly the tree below the URL |
| WebDavShare.Sardine.constructor | bundles/replication/src/main/java/com/adobe/cq/commerce/demandware/replication/transport/WebDAVTransportPlugin.java:152 | a new session is open, has sent nothing and sees the given share |
| WebDavShare.Sardine.Exists | bundles/replication/src/main/java/com/adobe/cq/commerce/demandware/replication/transport/WebDAVTransportPlugin.java:186 | the HEAD answer, the share unchanged, the HEAD appended to the log |
| WebDavShare.Sardine.CreateDirectory | bundles/replication/src/main/java/com/adobe/cq/commerce/demandware/replication/transport/WebDAVTransportPlugin.java:190 | the share and result the server gives for MKCOL, and MKCOL appended to the log |
| WebDavShare.Sardine.Put | bundles/replication/src/main/java/com/adobe/cq/commerce/demandware/replication/transport/WebDAVTransportPlugin.java:159 | the share and result the server gives for PUT, and PUT appended to the log |
| WebDavShare.Sardine.Delete | bundles/replication/src/main/java/com/adobe/cq/commerce/demandware/replication/transport/WebDAVTransportPlugin.java:208 | the share and result the server gives for DELETE, and DELETE appended to the log |
| WebDavShare.Sardine.Shutdown | bundles/replication/src/main/java/com/adobe/cq/commerce/demandware/replication/transport/WebDAVTransportPlugin.java:163-169 | the session is closed and the share and log are unchanged |
| WebDavPaths.UrlEncodeChars | bundles/replication/src/main/java/com/adobe/cq/commerce/demandware/replication/transport/WebDAVTransportPlugin.java:94-95 | URLEncoder writes only kept characters, "+", "%" and hex digits |
| WebDavPaths.EncodeSegmentChars | bundles/replication/src/main/java/com/adobe/cq/commerce/demandware/replication/transport/WebDAVTransportPlugin.java:94-95 | an encoded segment contains no "/", "+" or space |
| WebDavPaths.EncodeCharDecodes | bundles/replication/src/main/java/com/adobe/cq/commerce/demandware/replication/transport/WebDAVTransportPlugin.java:94-95 | one encoded character decodes to its UTF-8 bytes, whatever follows |
| WebDavPaths.EncodeSegmentDecodes | bundles/replication/src/main/java/com/adobe/cq/commerce/demandware/replication/transport/WebDAVTransportPlugin.java:94-95 | percent-decoding an encoded segment gives the UTF-8 bytes of the name |
| WebDavPaths.TargetPathOfFile | bundles/replication/src/main/java/com/adobe/cq/commerce/demandware/replication/transport/WebDAVTransportPlugin.java:94-95 | only the segment after the last "/" is encoded; the directory part is kept as it is |
| WebDavPaths.TargetPath | bundles/replication/src/main/java/com/adobe/cq/commerce/demandware/replication/transport/WebDAVTransportPlugin.java:93-95 | the target path is the directory part of the path, "/", and a last segment without "/" |
| WebDavPaths.TargetPathWithoutSlash | bundles/replication/src/main/java/com/adobe/cq/commerce/demandware/replication/transport/WebDAVTransportPlugin.java:94-95 | a path without "/" becomes the path followed by "/" |
| WebDavPaths.TargetPathDecodes | bundles/replication/src/main/java/com/adobe/cq/commerce/demandware/replication/transport/WebDAVTransportPlugin.java:94-95 | the target path splits back into the directory and a segment that decodes to the name |
| WebDavPaths.FoldersOf | bundles/replication/src/main/java/com/adobe/cq/commerce/demandware/replication/transport/WebDAVTransportPlugin.java:182-183 | the folders walked are non-empty and contain no "/" |
| WebDavPaths.FolderUrls | bundles/replication/src/main/java/com/adobe/cq/commerce/demandware/replication/transport/WebDAVTransportPlugin.java:184-185 | one folder URL per folder |
| WebDavPaths.FolderUrlsNest | bundles/replication/src/main/java/com/adobe/cq/commerce/demandware/replication/transport/WebDAVTransportPlugin.java:185 | each folder URL is its parent's URL, "/", and the folder; the first hangs below the endpoint |
| WebDavPaths.FoldersOfPath | bundles/replication/src/main/java/com/adobe/cq/commerce/demandware/replication/transport/WebDAVTransportPlugin.java:182-183 | the path "/f1/.../fn/leaf" walks exactly f1 ... fn |
| WebDavPaths.FoldersOfTargetPath | bundles/replication/src/main/java/com/adobe/cq/commerce/demandware/replication/transport/WebDAVTransportPlugin.java:94-95 | encoding the last segment does not change the folders walked |
| WebDavPaths.PathWithoutSlashIsWalkedAsFolder | bundles/replication/src/main/java/com/adobe/cq/commerce/demandware/replication/transport/WebDAVTransportPlugin.java:182-185 | a path without "/" is walked as a folder of its own name, and the upload goes below it |
| WebDavTransport.Visit | bundles/replication/src/main/java/com/adobe/cq/commerce/demandware/replication/transport/WebDAVTransportPlugin.java:185-190 | a failed visit leaves the share unchanged |
| WebDavTransport.VisitChanges | bundles/replication/src/main/java/com/adobe/cq/commerce/demandware/replication/transport/WebDAVTransportPlugin.java:186-190 | a visit keeps the share, adds at most one collection at its URL, and sends MKCOL only for an absent URL |
| WebDavTransport.Heads | bundles/replication/src/main/java/com/adobe/cq/commerce/demandware/replication/transport/WebDAVTransportPlugin.java:186-188 | one HEAD per folder URL, in order |
| WebDavTransport.WalkKeepsShare | bundles/replication/src/main/java/com/adobe/cq/commerce/demandware/replication/transport/WebDAVTransportPlugin.java:184-191 | the folder walk never removes or rewrites anything on the share |
| WebDavTransport.WalkCreatesOnlyMissing | bundles/replication/src/main/java/com/adobe/cq/commerce/demandware/replication/transport/WebDAVTransportPlugin.java:184-191 | the walk sends only HEADs, and MKCOLs only for folder URLs the share lacked |
| WebDavTransport.WalkAddsOnlyFolders | bundles/replication/src/main/java/com/adobe/cq/commerce/demandware/replication/transport/WebDAVTransportPlugin.java:184-191 | everything the walk adds is a collection at a folder URL |
| WebDavTransport.WalkEstablishesFolders | bundles/replication/src/main/java/com/adobe/cq/commerce/demandware/replication/transport/WebDAVTransportPlugin.java:184-191 | after a completed walk every folder URL exists |
| WebDavTransport.WalkWithoutFaults | bundles/replication/src/main/java/com/adobe/cq/commerce/demandware/replication/transport/WebDAVTransportPlugin.java:184-191 | without faults, and with no document above any folder URL, the walk always completes |
| WebDavTransport.WalkOverExistingFolders | bundles/replication/src/main/java/com/adobe/cq/commerce/demandware/replication/transport/WebDAVTransportPlugin.java:186-188 | over existing folders the walk only sends HEADs and changes nothing |
| WebDavTransport.WalkIdempotent | bundles/replication/src/main/java/com/adobe/cq/commerce/demandware/replication/transport/WebDAVTransportPlugin.java:184-191 | a second walk after a completed one creates nothing |
| WebDavTransport.VisitFolder | bundles/replication/src/main/java/com/adobe/cq/commerce/demandware/replication/transport/WebDAVTransportPlugin.java:185-190 | one iteration of the loop performs exactly one visit of the folder URL |
| WebDavTransport.WalkFoldersFollowsUrls | bundles/replication/src/main/java/com/adobe/cq/commerce/demandware/replication/transport/WebDAVTransportPlugin.java:184-185 | the walk as the loop builds its URLs is the walk over the folder URLs |
| WebDavTransport.GetOrCreateFolders | bundles/replication/src/main/java/com/adobe/cq/commerce/demandware/replication/transport/WebDAVTransportPlugin.java:180-192 | the session's share, log and result are those of the folder walk of the path, after the requests already sent |
| WebDavTransport.DeliverWebDav | bundles/replication/src/main/java/com/adobe/cq/commerce/demandware/replication/transport/WebDAVTransportPlugin.java:149-170 | the upload is the folder walk followed, if it completed, by the PUT, and the session ends shut down |
| WebDavTransport.UploadPutsLast | bundles/replication/src/main/java/com/adobe/cq/commerce/demandware/replication/transport/WebDAVTransportPlugin.java:155-159 | the only PUT is the last request, to the transport URI plus the path, and only after a completed walk |
| WebDavTransport.UploadKeepsShare | bundles/replication/src/main/java/com/adobe/cq/commerce/demandware/replication/transport/WebDAVTransportPlugin.java:149-170 | nothing on the share is lost by an upload, whatever failed |
| WebDavTransport.UploadEstablishes | bundles/replication/src/main/java/com/adobe/cq/commerce/demandware/replication/transport/WebDAVTransportPlugin.java:155-159 | a completed upload leaves every folder and the document in place |
| WebDavTransport.UploadWithoutFaults | bundles/replication/src/main/java/com/adobe/cq/commerce/demandware/replication/transport/WebDAVTransportPlugin.java:155-159 | without faults, an upload to a target that is neither a folder on the path nor an existing collection, with no document above it or its folders, completes |
| WebDavTransport.DeleteWebDav | bundles/replication/src/main/java/com/adobe/cq/commerce/demandware/replication/transport/WebDAVTransportPlugin.java:203-222 | one DELETE, a 404 counted as success, and the session ends shut down |
| WebDavTransport.RemoveOutcome | bundles/replication/src/main/java/com/adobe/cq/commerce/demandware/replication/transport/WebDAVTransportPlugin.java:208-214 | the delete fails exactly when a fault other than 404 intervenes |
| WebDavTransport.RemoveIdempotent | bundles/replication/src/main/java/com/adobe/cq/commerce/demandware/replication/transport/WebDAVTransportPlugin.java:208-212 | deleting twice is deleting once |
| WebDavTransport.Deliver | bundles/replication/src/main/java/com/adobe/cq/commerce/demandware/replication/transport/WebDAVTransportPlugin.java:81-136 | the result, share and requests of deliver are those of the plan for the record: an error before any request, an upload, nothing to send, or a delete |
| WebDavTransport.PlanDelivery | bundles/replication/src/main/java/com/adobe/cq/commerce/demandware/replication/transport/WebDAVTransportPlugin.java:81-136 | a missing share or path fails with "Can not create endpoint URI"; a publish plans an upload or nothing, an upload has a non-empty content type and the encoded target path, and any other action deletes a URL ending in the action path |
| WebDavTransport.PlanFailsOnMissingEntries | bundles/replication/src/main/java/com/adobe/cq/commerce/demandware/replication/transport/WebDAVTransportPlugin.java:90-121 | deliver fails before any request exactly when the share or path entry is missing, or a publish lacks its payload, data or mimetype |
| WebDavTransport.PlanPayloadBytes | bundles/replication/src/main/java/com/adobe/cq/commerce/demandware/replication/transport/WebDAVTransportPlugin.java:111-117 | a base64 payload is uploaded as the bytes it encodes, any other as the UTF-8 bytes of its text, to the target path with the given content type |
| WebDavTransport.EmptyContentTypeSendsNothing | bundles/replication/src/main/java/com/adobe/cq/commerce/demandware/replication/transport/WebDAVTransportPlugin.java:124-131 | an empty content type sends no request and returns false |
| WebDavTransport.UnpublishDeletesActionPath | bundles/replication/src/main/java/com/adobe/cq/commerce/demandware/replication/transport/WebDAVTransportPlugin.java:132-134 | any other action deletes the action's own path below the transport URI, and succeeds when that resource is already gone |
| WebDavTransport.CredentialsOf | bundles/replication/src/main/java/com/adobe/cq/commerce/demandware/replication/transport/WebDAVTransportPlugin.java:228-238 | credentials for any scope exactly when a WebDAV user is set, with that user and the stored password |
| WebDavTransport.CreateCredentialsProvider | bundles/replication/src/main/java/com/adobe/cq/commerce/demandware/replication/transport/WebDAVTransportPlugin.java:228-238 | the credentials of the client's current settings |
| WebDavTransport.ActivatedCredentials | bundles/replication/src/main/java/com/adobe/cq/commerce/demandware/replication/transport/WebDAVTransportPlugin.java:228-238 | after activation, credentials exist exactly when a non-empty WebDAV user is configured, and they carry the stored password |
| AttributeMapping.NewAttributeDescriptor | bundles/replication/src/main/java/com/adobe/cq/commerce/demandware/replication/content/attributemapping/AttributeDescriptor.java:41-54 | a blank source name is rejected first, then a blank target name; otherwise all four values are stored trimmed, with null as "" |
| AttributeMapping.NewAttributeDescriptorWithConverter | bundles/replication/src/main/java/com/adobe/cq/commerce/demandware/replication/content/attributemapping/AttributeDescriptor.java:37-39 | the four-argument constructor with no default value, so the default is "" |
| AttributeMapping.NewAttributeDescriptorOfNames | bundles/replication/src/main/java/com/adobe/cq/commerce/demandware/replication/content/attributemapping/AttributeDescriptor.java:33-35 | the three-argument constructor with no converter, so converter and default are "" |
| AttributeMapping.StoredValuesTrimmed | bundles/replication/src/main/java/com/adobe/cq/commerce/demandware/replication/content/attributemapping/AttributeDescriptor.java:50-53 | every stored value is already trimmed |
| AttributeMapping.ReconstructionIsIdentity | bundles/replication/src/main/java/com/adobe/cq/commerce/demandware/replication/content/attributemapping/AttributeDescriptor.java:41-54 | constructing from a descriptor's own values gives the same descriptor |
| AttributeMapping.ControlCharacterNameStoredEmpty | bundles/replication/src/main/java/com/adobe/cq/commerce/demandware/replication/content/attributemapping/AttributeDescriptor.java:42-53 | a source name made of a NUL character passes the blank check and is stored as "" |
| AttributeMapping.ParseToString | bundles/replication/src/main/java/com/adobe/cq/commerce/demandware/replication/content/attributemapping/AttributeDescriptor.java:72-81 | when converter id and names contain no ",", toString can be read back into the descriptor |
| AttributeMapping.ToString | bundles/replication/src/main/java/com/adobe/cq/commerce/demandware/replication/content/attributemapping/AttributeDescriptor.java:72-81 | the output starts with "AttributeDescriptor[converterId:" and ends with "]"; ParseToString reads the values back |
| AttributeMapping.ToStringInjective | bundles/replication/src/main/java/com/adobe/cq/commerce/demandware/replication/content/attributemapping/AttributeDescriptor.java:72-81 | two such descriptors with the same toString are equal |

## Left out

- Logging, and the replication log messages, are not modelled.
- The HTTP client plumbing is not modelled: the connection manager, scheme registry, route planner and
  redirect strategy (`bundles/core/src/main/java/com/adobe/cq/commerce/demandware/connection/DemandwareClientImpl.java` lines 143-188 and 220-225). Only the values they are given are.
- `getHttpClient` only builds the client; `HttpClientSettingsOf` covers what it configures as written, and `HttpClientSettingsCorrected` the same with the corrected socket factory.
- Local-interface name resolution (`InetAddress.getByName`) is a parameter. So is whether a key store file
  opens and loads, and the crypto service's `isProtected`/`unprotect`.
- The real TLS context is not modelled.
- WebDavTransport.Deliver: the endpoint of the agent's client is a parameter. The call chain at
  `bundles/replication/src/main/java/com/adobe/cq/commerce/demandware/replication/transport/WebDAVTransportPlugin.java` line 86 is not modelled, and neither is a missing client there.
- `DemandwareClient.DEFAULT_SCHEMA` and `constructEndpointURL` are not part of this model. They are a
  string parameter and a total function parameter; a `JSONException` thrown inside `constructEndpointURL`
  is not modelled.
- `getHttpClientBuilder(config, log)` of the transport is not modelled (it only builds the session's HTTP
  client).
- The JSON record is modelled as optional string entries; JSON typing is not modelled.
- The `UnsupportedEncodingException` branch cannot occur for "UTF-8" and is not modelled.
- `String.getBytes()` uses the platform charset; the model uses UTF-8.
- The Sardine server is abstracted. Its answers are HEAD, MKCOL, PUT and DELETE over a map plus a fault
  oracle. A MKCOL or PUT whose parent is missing altogether is not refused with 409, because the map does
  not record the collections above the share's root; one whose parent is a document is.
- WebDavShare.InTree: a DELETE URL is matched literally. A URL with a trailing slash ("…/a/") does not
  remove children stored as "…/a/b", and does not match a resource stored as "…/a"; servers that treat
  the two spellings as one collection are not modelled.
- OsgiProperties.ParseInt: accepts ASCII digits only. `Integer.valueOf` reads digits through
  `Character.digit`, so it also accepts other Unicode decimal digits ("３０" is 30 in Java, and the
  default in the model).
- ClientProvider.Lookup: takes a string, so the `NullPointerException` of `instanceId.replace` on a null
  instance id (`DemandwareClientProviderImpl.java` line 50) is excluded by the type.
- An `IOException` from `shutdown` is only logged by the source, so the model does not produce one.
- WebDavTransport.Deliver: request URLs are not checked for URI syntax. The directory part of the target
  path (`WebDAVTransportPlugin.java` line 94) and the action path (lines 133 and 208) go into the URL
  unencoded. Sardine, which is not part of this model, builds each request through `URI.create`. A URL with
  a space, `"`, `<`, `{` or `|` then throws `IllegalArgumentException` before any request is sent. Neither
  catch at lines 209-214 handles it, so `deliver` throws it unwrapped after the session is shut down. The
  model sends the request anyway. The same holds for `DeliverWebDav`, `DeleteWebDav` and
  `GetOrCreateFolders`.
- WebDavTransport.UnpublishDeletesActionPath: proves `Success(true)` for every action path. For a path that
  is not valid URI syntax, such as "/content/dam/my asset.jpg", the source throws `IllegalArgumentException`
  instead, as the previous line explains.
- WebDavShare.Serve: the fault oracle may answer a HEAD with a 404 failure. Sardine's `exists` turns a 404
  into `false` and never throws it, so the model admits failed walks that the source cannot produce. Every
  lemma holds for all oracles, so this only widens what the model allows.
- OsgiProperties.ToStringProp: property values are strings. `PropertiesUtil` first reads an array or
  collection value as its first element, and an empty one as the default. Array values are not modelled.
  A typed `Integer` reads the same as its decimal text.
- JavaStrings: Dafny strings hold Unicode scalar values, while Java strings hold UTF-16 code units. A lone
  surrogate cannot be represented, so `URLEncoder` writing it as "?" is not modelled.
- Concurrency between deliveries and bind/unbind is not modelled. Neither are the OSGi lifecycle and
  service ranking.
- ClientProvider.DemandwareClientProvider.GetClientForSpecificInstance: requires that a client was bound
  before. The source throws `NullPointerException` on the missing map, which the mandatory reference
  rules out.
- ClientProvider.DemandwareClientProvider.UnbindDemandwareClient: requires that a client was bound
  before, for the same reason.
- Client.DemandwareClient.Activate: the `String.format` of the error message is not modelled. Neither is
  the `CryptoException` text; the thrown exception is a failure value.
- AttributeMapping.ParseToString: proved only for descriptors whose converter id and names contain no ",".
  Otherwise toString is ambiguous; `ToStringInjective` has the same bound.

## Findings

| source | as written | input that shows it | evidently intended | confidence | as-written member | corrected member |
|---|---|---|---|---|---|---|
| bundles/core/src/main/java/com/adobe/cq/commerce/demandware/connection/DemandwareClientImpl.java:244 | `keyPwd.toCharArray()` on a key password that `trimToNull` turned into null throws `NullPointerException`. The catch-all at line 254 then falls back to the library's default socket factory. The configured client certificate and the TLS protocol restriction are silently dropped. | keystore.path=/etc/client.jks, keystore.password=secret, key.password="" (the property says "Leave empty for no password", line 103) | a missing key password is the empty password, and the key store is used | not executed | Client.KeystoreDroppedWhenKeyPasswordLeftEmpty | Client.SecureSocketFactory |
