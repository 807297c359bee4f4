/**
 * The API-key gate of util.py (`check_api_key_status`): uploading is enabled
 * exactly when a key has been configured.
 *
 * The session state is a parameter, and the warning shown for a missing key
 * is part of the user interface, which is not modelled.
 */
module ApiKey {

  /** The pair (uploading enabled, the configured key). */
  function CheckApiKeyStatus(mistralApiKey: string): (status: (bool, string))
    ensures status.0 <==> |mistralApiKey| > 0
    ensures status.1 == mistralApiKey
  {
    var apiKeyStatus := if mistralApiKey == "" then false else true;
    (apiKeyStatus, mistralApiKey)
  }
}
