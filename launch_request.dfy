/**
 * The `RunInstances` request of one job (lines 70-82), with the
 * deployment's environment values passed in as a configuration.
 */
module LaunchRequest {
  import opened Wrappers
  import Base64
  import Utf8

  /** The environment the infrastructure stack gives the function. */
  datatype Config = Config(
    keyName: string,             // KEY_NAME
    securityGroupId: string,     // SECURITY_GROUP_ID
    instanceProfileName: string, // INSTANCE_PROFILE_NAME
    subnetId: string,            // SUBNET_ID
    scriptBucketName: string,    // SCRIPT_BUCKET_NAME
    tableName: string)           // TABLE_NAME

  /** The fields of `RunInstancesCommandInput` the handler sets. */
  datatype Request = Request(
    imageId: Option<string>,
    instanceType: string,
    minCount: int,
    maxCount: int,
    userData: string,
    keyName: string,
    securityGroupIds: seq<string>,
    iamInstanceProfileName: string,
    subnetId: string)

  const InstanceType: string := "t3.small"

  /** `Buffer.from(script).toString('base64')`. */
  function EncodeUserData(script: string): string {
    Base64.Encode(Utf8.Encode(script))
  }

  function BuildLaunchRequest(config: Config, amiId: Option<string>, script: string): Request {
    Request(
      imageId := amiId,
      instanceType := InstanceType,
      minCount := 1,
      maxCount := 1,
      userData := EncodeUserData(script),
      keyName := config.keyName,
      securityGroupIds := [config.securityGroupId],
      iamInstanceProfileName := config.instanceProfileName,
      subnetId := config.subnetId)
  }

  /** The inverse of `EncodeUserData`: base 64, then UTF-8. */
  function DecodeUserData(userData: string): Option<string> {
    match Base64.Decode(userData)
    case None => None
    case Some(bytes) => Utf8.Decode(bytes)
  }

  /**
   * The request launches exactly one t3.small instance of the chosen image,
   * in the configured subnet with the configured key, security group and
   * instance profile, and its user data decodes back to the script.
   */
  lemma LaunchRequestSpec(config: Config, amiId: Option<string>, script: string)
    ensures BuildLaunchRequest(config, amiId, script).imageId == amiId
    ensures BuildLaunchRequest(config, amiId, script).instanceType == "t3.small"
    ensures BuildLaunchRequest(config, amiId, script).minCount == 1
    ensures BuildLaunchRequest(config, amiId, script).maxCount == 1
    ensures BuildLaunchRequest(config, amiId, script).keyName == config.keyName
    ensures BuildLaunchRequest(config, amiId, script).securityGroupIds == [config.securityGroupId]
    ensures BuildLaunchRequest(config, amiId, script).iamInstanceProfileName == config.instanceProfileName
    ensures BuildLaunchRequest(config, amiId, script).subnetId == config.subnetId
    ensures DecodeUserData(BuildLaunchRequest(config, amiId, script).userData) == Some(script)
  {
    var u := BuildLaunchRequest(config, amiId, script).userData;
    assert u == EncodeUserData(script);
    assert DecodeUserData(u) == Some(script) by {
      UserDataRoundTrip(script);
    }
  }

  /** The user data of a script decodes back to that script. */
  lemma UserDataRoundTrip(script: string)
    ensures DecodeUserData(EncodeUserData(script)) == Some(script)
  {
    var bytes := Utf8.Encode(script);
    assert Base64.Decode(Base64.Encode(bytes)) == Some(bytes) by {
      Base64.DecodeEncode(bytes);
    }
    assert Utf8.Decode(bytes) == Some(script) by {
      Utf8.DecodeEncode(script);
    }
  }

  /** For an ASCII script the user data has 4 * ceil(n / 3) characters for n characters. */
  lemma AsciiUserDataLength(script: string)
    requires forall i :: 0 <= i < |script| ==> script[i] as int < 0x80
    ensures |EncodeUserData(script)| == 4 * ((|script| + 2) / 3)
  {
    Utf8.EncodeAscii(script);
  }

  /** User data decodes to a script exactly when it is that script's encoding. */
  lemma UserDataIff(userData: string, script: string)
    ensures DecodeUserData(userData) == Some(script) <==> EncodeUserData(script) == userData
  {
    if DecodeUserData(userData) == Some(script) {
      var bytes := Base64.Decode(userData).value;
      Utf8.EncodeDecode(bytes);
      Base64.EncodeDecode(userData);
    }
    if EncodeUserData(script) == userData {
      Base64.DecodeEncode(Utf8.Encode(script));
      Utf8.DecodeEncode(script);
    }
  }
}
